# A verified model of the srsRAN ASN.1 PER codec and its neighbours

This project models, in Dafny 4.11, the parts of srsRAN 4G with the most intricate state and
arithmetic, and proves what callers rely on.

* **The PER codec** (`lib/src/asn1/asn1_utils.cc`). Two bit cursors sit under layered encoders
  and decoders. `Bits.dfy` and `BitRef.dfy` hold bit strings, shifts and the cursors; the
  cursors are classes over a byte buffer, specified on the *image* of the buffer (one bit
  string) and a bit position. `Per.dfy` and `PerTypes.dfy` describe every element twice, as the
  bits written at a position (`Enc...`) and as what a reader makes of an image (`Dec...`), and
  prove the round trips. `PerCodec.dfy`, `TypeCodec.dfy`, `Integer.dfy`, `BitString.dfy` and
  `OpenField.dfy` are the imperative encoders and decoders, each proved to compute its
  function. `WireForms.dfy` says, for every element and without recourse to those functions,
  which values have an encoding, which binary numbers it consists of, and what a reader makes
  of any image.
* **Whole messages** (`Message.dfy`, `MessageProofs.dfy`, `MessageForms.dfy`, `MessageCodec.dfy`). A schema is a
  finite tree of raw bits, integers, enumerations, octet and bit strings, sequences with
  optional fields, extensible sequences, lists, choices, open fields and extension additions.
  For every schema of either alignment variant (extension groups occur in the unaligned one),
  every value that has an encoding and every start position, decoding the encoding gives the
  value and stops where the encoder stopped; the same is proved end to end for the imperative
  codec over a byte buffer, with open fields built in scratch arrays and copied back. Without
  room the imperative encoder leaves exactly the part of the encoding that fits. On any input,
  cut off or garbled, the imperative decoder fails exactly when the decoding function does and
  yields the same value otherwise; where the source drops the result of a read (lengths of open
  fields, group flags, extension bits, choice tags) both go on with what that read left. The
  shape of a message is stated constructor by constructor, for writing and for reading any
  image: which flags stand in front, what they say, and which parts follow in which order.
* **The one-byte-per-bit codec** (`Liblte.dfy`), the simple reference that the packed reader refines.
* **The JSON writer** (`JsonWriter.dfy`) against a recursive pretty printer.
* **The bearer manager** (`BearerManager.dfy`): two maps per user over every run of operations.
* **Packet framing and handoff** (`NetStream.dfy`, `PacketHandoff.dfy`): a byte stream cut into
  transport blocks, and a two-thread handshake as a state machine over all interleavings, with
  the fate of every packet and freedom from deadlock.
* **Configuration loops** (`CellConfig.dfy`): warning-message segments, carrier lists, secondary cells.

`dafny verify dfyconfig.toml` checks the whole project.

## Where the code does not do what one would expect

Each of these is a lemma that gives the exact condition, or an input that fails.

* `Per.UnalignedRange`, `Per.AlignedRange`: decoded numbers can lie outside their bounds.
* `PerCodec.PackConstrained`: without alignment, a number that does not fit in the buffer is
  cut off and reported as a success.
* `PerTypes.SkipFieldExactly`, `MessageProofs.LastUnknownExactly`: an extension group unknown to
  the decoder is skipped only if it has at most four octets.
* `BitString.PrefixReadsBackExactly`: the length prefix of a bounded bit string is unreadable when
  the distance of the bounds is a power of two, or the upper bound is 64K or more.
* `BitString.AlignedPrefixReadsBackExactly`: in the aligned variant also when there are 256 lengths
  or more.
* `BitString.OutsideStringExactly`: the aligned reader of an unbounded bit string, or of one outside
  its bounds, looks for the length on an octet boundary; the string comes back if and only if the
  writer happened to be there.
* `BitString.UnalignedStringExactly`: which bit strings of the unaligned variant come back.
* `Per.ConstrainedRoundTripExactly`: an unaligned number in a field of 64 bits is not written at all,
  and success is reported.
* `MessageProofs.BadTagExactly`, `MessageProofs.LongTagTaken`, `MessageProofs.MissingTagTaken`: a choice
  whose tag cannot be read is refused if and only if the value left is no alternative or that
  alternative cannot be read there. A refused extension number is taken for the first extension,
  and a tag missing at the end of the input for the first alternative.
* `PerTypes.CountOverrunExactly`: when a group count is cut off by the end of the input, the decoder
  may go on to look for flags behind those it has; exactly when that is so.
* `TypeCodec.PackFlags`, `MessageProofs.AdditionFlagsRoundTrip`: an extensible message whose
  extension bit is set without any group present has its group count refused after one bit; since
  neither side looks at the result, the message still comes back.
* `Integer.IntegerRoundTripExactly`: an integer type bounded by the largest value of its C++ type
  is neither written nor read.
* `BearerManager.SharedLcidIsLost`: after two bearers shared an LCID, removing one hides the other.
* `PacketHandoff.MbmsAirsNothing`: in MBMS mode no packet from the network is ever encoded.
* `PacketHandoff.AiredExactly`, `PacketHandoff.ReleasedExactly`: in either mode a packet is encoded if
  and only if it was copied in while a subframe stood between writing over the buffer and
  encoding it; outside MBMS mode all cases occur (`EarlyPacketIsLost`, `LatePacketIsLost`,
  `MidwayPacketIsAired`).
* `NetStream.ConservationExactly`: outside MBMS mode the second half of each block is lost, unless it
  equals the first.
* The message of `bit_ref::pack` speaks of "up to 64 bits"; the code refuses 64, and so does the model.

## Model

| member | source | states |
|---|---|---|
| `Bits.CeilLog2` | lib/src/asn1/asn1_utils.cc:405-405 | the width of a bit field is the least one with room for the range |
| `Bits.BitLength` | lib/src/asn1/asn1_utils.cc:487-487 | the number of significant bits of a value, bracketed by powers of two |
| `Bits.BitsOfNat` | lib/src/asn1/asn1_utils.cc:147-205 | reading back the bits of any number gives exactly its low bits |
| `Bits.NatOfBits` | lib/src/asn1/asn1_utils.cc:147-205 | writing the number that a bit string denotes gives the bit string back |
| `BitImage.SpliceConcat` | lib/src/asn1/asn1_utils.cc:147-176 | two writes in a row leave the same buffer as one write of both bit strings, at every offset |
| `BitImage.SpliceCanonical` | lib/src/asn1/asn1_utils.cc:147-176 | every write keeps the unused low bits of the current octet zero |
| `BitImage.SplicePad` | lib/src/asn1/asn1_utils.cc:270-282 | on such a state, skipping to the octet boundary and writing zeros up to it are the same |
| `BitImage.SpliceForgets` | lib/src/asn1/asn1_utils.cc:147-176 | the octets of an encoding are its bits and zero padding, whatever the buffer held before |
| `BitRefs.PackStep` | lib/src/asn1/asn1_utils.cc:154-174 | the masks and shifts of one round of the pack loop splice the leading bits of the number into the image and leave its remainder |
| `BitRefs.BitRef.Pack` | lib/src/asn1/asn1_utils.cc:147-176 | succeeds exactly for fewer than 64 bits that fit; whole buffer and cursor afterwards; when it fails half-way, the leading bits that fit are there; no bit before the cursor changes |
| `BitRefs.BitRef.ThenWroteFitting` | lib/src/asn1/asn1_utils.cc:154-158 | writes that may be cut off at the end of the buffer compose: once bits are cut off, nothing behind them is written |
| `BitRefs.SplittingLaw` | lib/src/asn1/asn1_utils.cc:147-176 | packing a in n bits and b in m bits leaves the same octets as packing a*2^m+b in n+m bits |
| `BitRefs.BitRef.PackBytes` | lib/src/asn1/asn1_utils.cc:312-331 | succeeds exactly when a spare octet remains behind the data, and then writes what octet-wise packing writes, aligned or not |
| `BitRefs.BitRef.AlignBytes` | lib/src/asn1/asn1_utils.cc:270-282 | on a writer: same buffer and cursor as writing zeros up to the boundary |
| `BitRefs.BitRef.AlignBytesZero` | lib/src/asn1/asn1_utils.cc:333-346 | clears up to the boundary; the same new state as `AlignBytes` |
| `BitRefs.CBitRef.Unpack` | lib/src/asn1/asn1_utils.cc:178-205 | succeeds exactly when the width allows it and the bits are there; yields the number those bits denote, without wrap-around; what is left in the variable and where the cursor is, also on failure |
| `BitRefs.CBitRef.UnpackBytes` | lib/src/asn1/asn1_utils.cc:243-268 | succeeds exactly when n octets remain, aligned or not, and yields the octets of those bits |
| `BitRefs.CBitRef.AlignBytes` | lib/src/asn1/asn1_utils.cc:270-282 | moves a reader to the next octet boundary |
| `BitRefs.CBitRef.AdvanceBits` | lib/src/asn1/asn1_utils.cc:284-298 | succeeds and lands exactly as reading n bits does |
| `Per.CountWidth` | lib/src/asn1/asn1_utils.cc:486-486 | the octet count has the least field that tells apart all counts of the range |
| `Per.CountFits` | lib/src/asn1/asn1_utils.cc:486-491 | the octet count minus one always fits its length bits, and the number fits the octets |
| `Per.ConstrainedRoundTripExactly` | lib/src/asn1/asn1_utils.cc:457-564 | a number the encoder accepts is decoded again, through all branches of both variants, both cursors ending together, if and only if it does not take 64 unaligned bits |
| `Per.UnalignedRange` | lib/src/asn1/asn1_utils.cc:536-543 | all successful unaligned decodes are within the bounds if and only if lb + 2^bits does not exceed the type |
| `Per.AlignedRange` | lib/src/asn1/asn1_utils.cc:544-562 | all successful aligned decodes are within the bounds if and only if the range fills its field |
| `Per.SmallRoundTrip` | lib/src/asn1/asn1_utils.cc:590-615 | normally small numbers up to 63 round trip |
| `Per.LengthRoundTrip` | lib/src/asn1/asn1_utils.cc:729-803 | lengths below 16K round trip in both variants from every position |
| `Per.LengthRoundTripExactly` | lib/src/asn1/asn1_utils.cc:729-803 | an accepted length is read back if and only if it is below 16K; longer ones are refused |
| `Per.LengthBitsBounded` | lib/src/asn1/asn1_utils.cc:766-782 | the unaligned reader never yields 16K or more from any input |
| `Per.LengthKept` | lib/src/asn1/asn1_utils.cc:763-803 | the length and the position that remain after a read, also after one that fails; on success the decoded ones |
| `Per.LengthVariantsAgree` | lib/src/asn1/asn1_utils.cc:731-760 | from an octet boundary both variants write the same octets |
| `Per.BoundedLengthRoundTrip` | lib/src/asn1/asn1_utils.cc:684-711 | lengths with bounds round trip |
| `PerTypes.DecEnum` | lib/src/asn1/asn1_utils.cc:414-441 | no successful decode yields a value outside the enumeration |
| `PerTypes.EnumEncodable` | lib/src/asn1/asn1_utils.cc:383-412 | exactly the values with at most 63 past the root are encoded |
| `PerTypes.EnumRoundTrip` | lib/src/asn1/asn1_utils.cc:377-441 | every encodable enumeration value round trips |
| `PerTypes.EnumKeptReads` | lib/src/asn1/asn1_utils.cc:414-441 | what a read leaves, whether it succeeds or not: on success the value read; a value beyond the type only on failure |
| `PerTypes.LongFormKept` | lib/src/asn1/asn1_utils.cc:424-427 | a refused extension number leaves the first value behind the root |
| `PerTypes.MissingKept` | lib/src/asn1/asn1_utils.cc:420-433 | at the end of the input the first value is left |
| `PerTypes.NofGroups` | lib/src/asn1/asn1_utils.cc:1351-1358 | one past the last group present, none present behind it |
| `PerTypes.FlagsRoundTrip` | lib/src/asn1/asn1_utils.cc:1349-1414 | presence flags come back as they were, padded with false to the supported count |
| `PerTypes.FlagsKept` | lib/src/asn1/asn1_utils.cc:1401-1414 | the flags and the position a decoder goes on with when nobody looks at the result; on success the decoded ones |
| `PerTypes.CountOverrunExactly` | lib/src/asn1/asn1_utils.cc:1391-1404 | the decoder looks behind its flags if and only if the input ends within the count and the bits left of it exceed the groups known |
| `PerTypes.ReadOctetsAt` | lib/src/asn1/asn1_utils.cc:1030-1040 | successive reads of eight bits yield the octets whose bits lie in the image |
| `PerTypes.BlockReadIsOctetReads` | lib/src/asn1/asn1_utils.cc:243-268 | the block read and n reads of eight bits yield the same octets |
| `PerTypes.OctetStringRoundTrip` | lib/src/asn1/asn1_utils.cc:1020-1040 | octet strings below 16K round trip in both variants |
| `PerTypes.CloseFieldExactly` | lib/src/asn1/asn1_utils.cc:1464-1468 | the unpack guard moves the reader to the field's end, or the end of the input, if and only if it stopped at most 32 bits short and not beyond; otherwise it stays |
| `PerTypes.LengthOctetAligned` | lib/src/asn1/asn1_utils.cc:742-760 | an aligned length ends on an octet boundary |
| `PerTypes.ScratchLengthAccepted` | lib/src/asn1/asn1_utils.cc:1439-1448 | the length of content built in a scratch array is never refused by the writer, and is read back |
| `PerTypes.OpenFieldLayout` | lib/src/asn1/asn1_utils.cc:1433-1462 | content of any k bits is found behind the length ceil(k/8), and the field is that many octets |
| `PerTypes.OpenFieldCloses` | lib/src/asn1/asn1_utils.cc:1433-1468 | a reader that stops behind the content is moved to the field's end |
| `PerTypes.SkipFieldExactly` | lib/src/asn1/asn1_utils.cc:1391-1399 | an unread field is skipped if and only if it has at most four octets; otherwise the reader stays at its content |
| `PerCodec.PackConstrained` | lib/src/asn1/asn1_utils.cc:457-496 | refuses what has no encoding; writes the bits that fit; without room the aligned variant fails and the unaligned one reports success |
| `PerCodec.UnpackConstrained` | lib/src/asn1/asn1_utils.cc:523-564 | succeeds exactly as the decoding function, with its value and position |
| `PerCodec.PackOctetAligned` | lib/src/asn1/asn1_utils.cc:478-484 | one or two octets from an octet boundary |
| `PerCodec.PackPrefixed` | lib/src/asn1/asn1_utils.cc:485-492 | count, alignment and octets, as far as they fit; fails exactly at eight octets or without room |
| `PerCodec.PackSmall` | lib/src/asn1/asn1_utils.cc:590-601 | succeeds exactly up to 63 with room, in seven bits |
| `PerCodec.UnpackSmall` | lib/src/asn1/asn1_utils.cc:602-615 | succeeds exactly as the decoding function; value and position in all cases |
| `PerCodec.PackLength` | lib/src/asn1/asn1_utils.cc:729-761 | succeeds exactly when the length has an encoding that fits; writes the bits that fit, and nothing when it has no encoding |
| `PerCodec.UnpackLength` | lib/src/asn1/asn1_utils.cc:763-803 | succeeds exactly as the decoding function; value and position in all cases |
| `PerCodec.PackBoundedLength` | lib/src/asn1/asn1_utils.cc:684-691 | refuses what has no encoding; writes the bits that fit; without room it succeeds exactly in the unaligned variant with bounds below 64K |
| `PerCodec.UnpackBoundedLength` | lib/src/asn1/asn1_utils.cc:701-711 | succeeds exactly as the decoding function |
| `TypeCodec.PackEnum` | lib/src/asn1/asn1_utils.cc:383-412 | succeeds exactly on encodable values with room; writes their encoding as far as it fits |
| `TypeCodec.UnpackEnum` | lib/src/asn1/asn1_utils.cc:414-441 | succeeds exactly as the decoding function; value and position in all cases |
| `TypeCodec.CountGroups` | lib/src/asn1/asn1_utils.cc:1351-1358 | the downward scan finds one past the last group present |
| `TypeCodec.PackFlags` | lib/src/asn1/asn1_utils.cc:1349-1366 | succeeds exactly with a group present, at most 64 of them and room; writes what fits of the flags, or of the one bit written when the count is refused |
| `TypeCodec.UnpackFlags` | lib/src/asn1/asn1_utils.cc:1401-1414 | flags and count as the decoding function gives them, and the flags left when it fails |
| `TypeCodec.PackOctets` | lib/src/asn1/asn1_utils.cc:1020-1028 | length and octets, as far as they fit; succeeds exactly when all do |
| `TypeCodec.UnpackOctets` | lib/src/asn1/asn1_utils.cc:1030-1040 | succeeds exactly as the decoding function |
| `OpenField.PackGuard.constructor` | lib/src/asn1/asn1_utils.cc:1420-1431 | the cursor moves to a fresh scratch array and its former place is kept |
| `OpenField.PackGuard.Close` | lib/src/asn1/asn1_utils.cc:1433-1455 | the scratch content is re-based to the outer offset as length, content and zero padding, cut off where the outer buffer ends |
| `OpenField.UnpackGuard.constructor` | lib/src/asn1/asn1_utils.cc:1457-1462 | the length kept and the place behind it, also when the length cannot be read |
| `OpenField.UnpackGuard.Close` | lib/src/asn1/asn1_utils.cc:1464-1468 | leaves the reader where `CloseField` says, for any place it was at |
| `MessageProofs.EncodeShift` | lib/src/asn1/asn1_utils.cc:1420-1455 | the encoding of a message depends on the position only through octet alignment, so content built at offset zero of a scratch array may be moved |
| `MessageProofs.PreambleRoundTrip` | lib/src/asn1/rrc/bcch_msg.cc:1884-1896 | presence flags of optional fields are read back |
| `MessageProofs.RoundTrip` | lib/src/asn1/rrc/bcch_msg.cc:2230-2291 | for every message tree of either variant, decoding where its encoding lies yields the message and the encoder's end position |
| `MessageProofs.PrefixFree` | lib/src/asn1/rrc/bcch_msg.cc:2230-2291 | different messages of a type have different encodings, and none is a prefix of another |
| `MessageProofs.ChoiceRoundTrip` | lib/src/asn1/rrc/bcch_msg.cc:12029-12075 | a choice comes back, in both variants: tag, then the alternative, as an open field if it is an extension |
| `MessageProofs.BadTagExactly` | lib/src/asn1/rrc/common_ext.cc:2110-2126 | an unreadable tag is refused if and only if the value left is no alternative, or that alternative cannot be read there |
| `MessageProofs.LongTagTaken` | lib/src/asn1/rrc/bcch_msg.cc:12150-12155 | every extensible choice takes a tag in the long form for its first extension |
| `MessageProofs.MissingTagTaken` | lib/src/asn1/rrc/common_ext.cc:2110-2117 | at the end of the input a choice is taken for its first alternative, and succeeds if that can be read from nothing |
| `MessageProofs.ExtensibleRoundTrip` | lib/src/asn1/rrc/bcch_msg.cc:2230-2291 | an extensible sequence comes back: extension bit, root, then the additions if there are any |
| `MessageProofs.AdditionFlagsRoundTrip` | lib/src/asn1/rrc/bcch_msg.cc:1855-1859 | group flags come back, also where the extension bit is set and no group is present |
| `MessageProofs.AdditionsRoundTrip` | lib/src/asn1/asn1_utils.cc:1391-1414 | a decoder that knows only the first k extension groups reads them and stops at the encoder's end, if the unknown ones have at most four octets |
| `MessageProofs.LastUnknownExactly` | lib/src/asn1/asn1_utils.cc:1391-1399 | with one unknown group, the reader ends at the encoder's position if and only if that group has at most four octets |
| `MessageCodec.PackValue` | lib/src/asn1/rrc/bcch_msg.cc:2230-2261 | for every message that has an encoding and every buffer, the composed encoders write exactly the part of the encoding that fits, through nested scratch arrays, and report success whenever all of it fits |
| `MessageCodec.PackOpen` | lib/src/asn1/asn1_utils.cc:1420-1455 | a nested message between the two halves of the guard becomes an open field, as far as it fits |
| `MessageCodec.PackChoice` | lib/src/asn1/rrc/bcch_msg.cc:12029-12075 | tag and alternative, as far as they fit; the result of writing the tag is dropped |
| `MessageCodec.PackExtensible` | lib/src/asn1/rrc/bcch_msg.cc:2230-2261 | extension bit, root and additions, as far as they fit; the result of writing the bit is dropped |
| `MessageCodec.PackItems` | lib/include/srsran/asn1/asn1_utils.h:1058-1066 | items of a list one after the other, as far as they fit, up to the first that fails |
| `MessageCodec.UnpackItems` | lib/include/srsran/asn1/asn1_utils.h:1085-1095 | items of a list read back in order; fails exactly when one of them does |
| `MessageCodec.UnpackValue` | lib/src/asn1/rrc/bcch_msg.cc:2262-2291 | on every input the composed decoders fail exactly when the decoding function does, and otherwise yield its value and position |
| `MessageCodec.UnpackExtensible` | lib/src/asn1/rrc/bcch_msg.cc:2262-2291 | extension bit, root and additions on any input; the result of reading the bit is dropped |
| `MessageCodec.SkipUnknownGroups` | lib/src/asn1/asn1_utils.cc:1391-1399 | the destructor's loop over unknown groups, on any input |
| `MessageCodec.SendAndReceive` | lib/src/asn1/asn1_utils.cc:147-205 | end to end over a byte buffer: the message comes back, both cursors agree, and the octets are the encoding and zero padding whatever the buffer held |
| `WireForms.ConstrainedAccepted` | lib/src/asn1/asn1_utils.cc:460-491 | accepted is exactly what lies within the bounds, except 2^56 and more above the lower bound in aligned ranges above 64K |
| `WireForms.ConstrainedForm` | lib/src/asn1/asn1_utils.cc:465-472 | an unaligned number is its distance from the lower bound in the least width for the range; a field of 64 bits is left out |
| `WireForms.AlignedForm` | lib/src/asn1/asn1_utils.cc:473-494 | an aligned number is a field of the least width below 256 values, one octet for 256, two up to 64K, each from an octet boundary, and length-prefixed above |
| `WireForms.FieldWidthExactly` | lib/src/asn1/asn1_utils.cc:468-468 | a field of w bits keeps the values of a range apart if and only if the range has at most 2^w of them |
| `WireForms.PrefixedForm` | lib/src/asn1/asn1_utils.cc:485-492 | the octet count less one in the least width for the counts of the range, padding, and the number in the fewest octets |
| `WireForms.ConstrainedReads` | lib/src/asn1/asn1_utils.cc:523-564 | on any image: which field is read for each size of the range, when it is refused, the sum with the lower bound in the width of the type, and that only the unaligned variant tests the upper bound |
| `WireForms.SmallForm` | lib/src/asn1/asn1_utils.cc:590-601 | normally small numbers are exactly those up to 63, as seven-bit numbers |
| `WireForms.SmallReads` | lib/src/asn1/asn1_utils.cc:602-615 | on any image: seven bits, of which the first is zero |
| `WireForms.LengthForm` | lib/src/asn1/asn1_utils.cc:729-761 | which lengths have an encoding in each variant; one octet, two with 8000 hex added, or three, from an octet boundary if aligned |
| `WireForms.LengthReads` | lib/src/asn1/asn1_utils.cc:763-803 | on any image both readers, bit by bit and octet by octet, read the same numbers and refuse the same ones |
| `WireForms.EnumForm` | lib/src/asn1/asn1_utils.cc:383-412 | which values have an encoding, in terms of the number of values and of extensions; the value in the least width, behind a zero or as an octet with the top bit set if there is an extension marker |
| `WireForms.EnumReads` | lib/src/asn1/asn1_utils.cc:414-441 | on any image: the number read, the place of the extension bit, and refusal of what is no value of the type |
| `WireForms.FlagsForm` | lib/src/asn1/asn1_utils.cc:1349-1366 | presence flags are encoded exactly with 1 to 64 groups: their number less one in seven bits and the flags up to the last one set |
| `WireForms.FlagsReads` | lib/src/asn1/asn1_utils.cc:1401-1414 | on any image: the flags announced, filled up with clear ones to the supported number |
| `WireForms.ReadLeaves` | lib/src/asn1/asn1_utils.cc:178-205 | a read that meets the end of the image leaves the number that zeros behind the end would give |
| `WireForms.EnumLeaves` | lib/src/asn1/asn1_utils.cc:414-441 | the value and the position left by a read of an enumeration on any image |
| `WireForms.LengthLeaves` | lib/src/asn1/asn1_utils.cc:763-803 | the length and the position left by a read that fails |
| `WireForms.FlagsLeave` | lib/src/asn1/asn1_utils.cc:1401-1414 | the presence flags and the position left by a read that fails |
| `WireForms.OctetsForm` | lib/src/asn1/asn1_utils.cc:1020-1028 | an octet string is its length and its octets in order |
| `WireForms.OutsideForm` | lib/src/asn1/asn1_utils.cc:809-844 | an integer outside its bounds is a set bit, its octet count as a length, and the value in the fewest octets that hold it below a sign bit; it exists exactly with an extension marker and below eight octets |
| `WireForms.WithinForm` | lib/src/asn1/asn1_utils.cc:809-844 | an integer within its bounds is a clear bit, if there is an extension marker, and the constrained number; nothing for a single value or a type without upper bound |
| `WireForms.ComesBackExactly` | lib/src/asn1/asn1_utils.cc:809-903 | which integers come back, as conditions on the value, the bounds and the type |
| `WireForms.IntegerReads` | lib/src/asn1/asn1_utils.cc:873-903 | on any image: what the extension bit selects, the octets of a value outside the bounds, and where no value is set |
| `WireForms.OpenForm` | lib/src/asn1/asn1_utils.cc:1433-1455 | an open field is the number of its octets, the content and up to seven zeros |
| `WireForms.PrefixForm` | lib/src/asn1/asn1_utils.cc:1068-1107 | which bit-string lengths have a prefix, what its extension bit says, and that it is nothing, a general length, or the distance from the lower bound in the least width for ub - lb values, padded if aligned |
| `WireForms.PrefixReads` | lib/src/asn1/asn1_utils.cc:1142-1169 | on any image: which kind of length is read |
| `WireForms.BitStringForm` | lib/src/asn1/asn1_utils.cc:1109-1135 | prefix, then the bits of the buffer: in the aligned variant right behind the prefix for a fixed length of at most 16 bits, otherwise from an octet boundary behind zeros |
| `WireForms.ShortFixedForm` | lib/src/asn1/asn1_utils.cc:1109-1125 | a string of a fixed length of at most 16 bits without extension is nothing but its bits, in both variants |
| `WireForms.BitStringReads` | lib/src/asn1/asn1_utils.cc:1137-1193 | on any image: where the bits begin, how many octets they fill and in which order, and exactly when it fails |
| `WireForms.ReadableExactly` | lib/src/asn1/asn1_utils.cc:1068-1193 | the strings a message may carry, as conditions on bounds, length and position |
| `MessageForms.RawForm` | lib/src/asn1/rrc/bcch_msg.cc:2232-2233 | raw bits are exactly the numbers of their width |
| `MessageForms.ExtensibleForm` | lib/src/asn1/rrc/bcch_msg.cc:2230-2261 | an extensible sequence is one bit that is set exactly if there are additions, the root, and the additions; it has an encoding exactly if its parts have |
| `MessageForms.ExtensibleReads` | lib/src/asn1/rrc/bcch_msg.cc:2262-2291 | on any image a clear bit means no additions, a set bit that they follow the root |
| `MessageForms.ChoiceForm` | lib/src/asn1/rrc/bcch_msg.cc:12029-12075 | a choice is its tag and its alternative, as an open field exactly behind the root alternatives |
| `MessageForms.ChoiceReads` | lib/src/asn1/rrc/common_ext.cc:2110-2126 | on any image the alternative that the tag names is read behind it |
| `MessageForms.OpenFieldForm` | lib/src/asn1/asn1_utils.cc:1420-1455 | an open field holds the message as encoded at the beginning of a buffer, and exists exactly if that fits in the scratch array |
| `MessageForms.OpenFieldReads` | lib/src/asn1/asn1_utils.cc:1457-1468 | on any image the message is read behind the length, and the reader goes to the end of the field if it stopped at most 32 bits short of it, otherwise nowhere |
| `MessageForms.PreambleExactly` | lib/src/asn1/rrc/bcch_msg.cc:1884-1896 | the bits in front of a sequence are exactly one for every optional field, in order, set if and only if it is present |
| `MessageForms.GroupForm` | lib/src/asn1/rrc/bcch_msg.cc:2230-2244 | a sequence is its presence bits and then the fields that are present, in order, each encoded at its own position; only optional fields may be absent |
| `MessageForms.GroupReads` | lib/src/asn1/rrc/bcch_msg.cc:2262-2276 | on any image exactly the fields that the presence bits announce are read, in order |
| `MessageForms.AdditionsForm` | lib/src/asn1/rrc/bcch_msg.cc:2246-2259 | additions are the group flags, or one set bit if no group is present, and the groups that are present as open fields, in order |
| `MessageForms.AdditionsReads` | lib/src/asn1/rrc/bcch_msg.cc:2278-2290 | on any image exactly the groups that the flags announce are read as open fields, in order |
| `MessageForms.ListForm` | lib/include/srsran/asn1/asn1_utils.h:1058-1066 | a list is its count, constrained or as a length, and then its items in order, each encoded at its own position |
| `MessageForms.ListReads` | lib/include/srsran/asn1/asn1_utils.h:1085-1095 | on any image exactly as many items are read, in order, as the count says |
| `Integer.OutsideOctets` | lib/src/asn1/asn1_utils.cc:625-629 | the fewest octets that hold a value outside the bounds below a sign bit |
| `Integer.OutsideExactly` | lib/src/asn1/asn1_utils.cc:639-659 | a value outside the bounds is read back exactly when its octets fit the type, and refused otherwise |
| `Integer.IntegerRoundTripExactly` | lib/src/asn1/asn1_utils.cc:809-903 | an encoded integer comes back if and only if its bounds are proper and it does not take 64 unaligned bits, or it is outside them and its octets fit |
| `Integer.PackInteger` | lib/src/asn1/asn1_utils.cc:809-844 | refuses what has no encoding; writes the bits that fit; without room it succeeds exactly for an unaligned number within the bounds whose extension bit fitted |
| `Integer.UnpackInteger` | lib/src/asn1/asn1_utils.cc:873-903 | succeeds exactly as the decoding function, and says when no value was set |
| `BitString.FromNumber` | lib/src/asn1/asn1_utils.cc:1195-1209 | the buffer holds the number reduced to the width |
| `BitString.ToNumber` | lib/src/asn1/asn1_utils.cc:1220-1232 | the number the buffer holds |
| `BitString.NumberThereAndBack` | lib/src/asn1/asn1_utils.cc:1195-1232 | a number through a bit string comes back modulo 2^n |
| `BitString.PackField` | lib/src/asn1/asn1_utils.cc:1109-1125 | exactly when non-empty and with room, the buffer's number goes out with the most significant bit first; otherwise the part that fits |
| `BitString.UnpackField` | lib/src/asn1/asn1_utils.cc:1172-1193 | the buffer read back holds the number of those bits |
| `BitString.NumberFieldBits` | lib/src/asn1/asn1_utils.cc:1109-1125 | a bit string made from a number is written exactly as the number is packed |
| `BitString.FieldRoundTrip` | lib/src/asn1/asn1_utils.cc:1109-1193 | unpacking restores the byte buffer |
| `BitString.PrefixWidths` | lib/src/asn1/asn1_utils.cc:1100-1102 | writer and reader use the same prefix width if and only if the distance of the bounds is not a power of two |
| `BitString.BoundedPrefixRoundTrip` | lib/src/asn1/asn1_utils.cc:1100-1161 | for such bounds the prefix is read back |
| `BitString.PowerOfTwoPrefixClash` | lib/src/asn1/asn1_utils.cc:1100-1102 | otherwise the longest and the shortest string get the same prefix |
| `BitString.PrefixReadsBackExactly` | lib/src/asn1/asn1_utils.cc:1100-1161 | all permitted lengths are read back, unaligned, if and only if the upper bound is below 64K and the distance is not a power of two |
| `BitString.AlignedPrefixRoundTrip` | lib/src/asn1/asn1_utils.cc:1100-1188 | aligned bounds with fewer than 256 lengths, or whole octets on a boundary: the length is read back and the reader's own alignment brings it to the writer's position |
| `BitString.AlignedPrefixReadsBackExactly` | lib/src/asn1/asn1_utils.cc:1100-1188 | all permitted lengths are read back at all positions, aligned, if and only if the upper bound is below 64K, there are fewer than 256 lengths and the distance is not a power of two |
| `BitString.PackLengthPrefix` | lib/src/asn1/asn1_utils.cc:1068-1107 | the prefix as far as it fits, for all combinations of bounds, extension and alignment; succeeds exactly when it fits |
| `BitString.UnpackLengthPrefix` | lib/src/asn1/asn1_utils.cc:1142-1169 | succeeds exactly as the decoding function |
| `BitString.PrefixRoundTrip` | lib/src/asn1/asn1_utils.cc:1068-1169 | prefixes of either variant, within and outside the bounds, with and without extension marker: the length is read back and the bits are found |
| `BitString.BitStringRoundTrip` | lib/src/asn1/asn1_utils.cc:1127-1193 | a whole bit string comes back, prefix and octets, in either variant, wherever the prefixes agree; the sizes 1 to 160 with extension of S1AP addresses are among them |
| `BitString.PackBitString` | lib/src/asn1/asn1_utils.cc:1127-1135 | prefix and field as far as they fit; succeeds exactly when they do |
| `BitString.UnpackBitString` | lib/src/asn1/asn1_utils.cc:1137-1193 | succeeds exactly as the decoding function |
| `BitString.GeneralPrefixExactly` | lib/src/asn1/asn1_utils.cc:1094-1152 | the aligned reader finds the unaligned length of an unbounded string and stops where its writer stopped if and only if it starts on an octet boundary |
| `BitString.OutsidePrefixExactly` | lib/src/asn1/asn1_utils.cc:1084-1152 | the same for a whole prefix, unbounded or outside the bounds behind an extension bit |
| `BitString.OutsideStringExactly` | lib/src/asn1/asn1_utils.cc:1084-1193 | aligned, unbounded or outside the bounds: the whole string comes back if and only if its length starts on an octet boundary |
| `BitString.UnalignedStringExactly` | lib/src/asn1/asn1_utils.cc:1068-1193 | unaligned: a written string comes back if and only if its bounds are equal, or below 64K with a distance that is no power of two, or do not apply |
| `Liblte.ValueToBits` | lib/src/asn1/liblte_common.cc:40-48 | one bit per byte, most significant first, nothing else changed |
| `Liblte.BitsToValue` | lib/src/asn1/liblte_common.cc:55-66 | or-ing shifted bits yields the number they denote |
| `Liblte.Unpack` | lib/src/asn1/liblte_common.cc:127-135 | the single bits are the image of the bytes |
| `Liblte.Pack` | lib/src/asn1/liblte_common.cc:109-120 | whole octets hold the bits; a shorter tail is right-aligned |
| `Liblte.UnpackThenPack` | lib/src/asn1/liblte_common.cc:109-135 | packing undoes unpacking for every byte array |
| `Liblte.ReadBothWays` | lib/src/asn1/liblte_common.cc:55-66 | the packed reader and the naive one read the same number at every position, up to 31 bits |
| `JsonWriter.DigitsDenote` | lib/src/asn1/asn1_utils.cc:1498-1503 | numbers are their decimal digits, most significant first, without leading zeros |
| `JsonWriter.ObjectForm` | lib/src/asn1/asn1_utils.cc:1474-1543 | one more member of an object adds a comma if it is not the first, a line of its own one level deeper, its key and its text |
| `JsonWriter.ArrayForm` | lib/src/asn1/asn1_utils.cc:1474-1557 | likewise for an item of an array, without a key |
| `JsonWriter.Writer.WriteFieldname` | lib/src/asn1/asn1_utils.cc:1476-1485 | separator, indentation and key |
| `JsonWriter.Writer.WriteScalar` | lib/src/asn1/asn1_utils.cc:1487-1529 | key and text of a scalar, then a comma is due |
| `JsonWriter.Writer.Start` | lib/src/asn1/asn1_utils.cc:1531-1551 | opens a level: indentation one deeper |
| `JsonWriter.Writer.End` | lib/src/asn1/asn1_utils.cc:1538-1557 | closes a level: indentation restored |
| `JsonWriter.WriteValue` | lib/src/asn1/asn1_utils.cc:1474-1557 | driving the writer over any nested value appends exactly the pretty printer's text |
| `JsonWriter.Print` | lib/src/asn1/asn1_utils.cc:1559-1562 | the text of a whole document |
| `BearerManager.UeBearerManager.AddEpsBearer` | lib/src/common/bearer_manager.cc:30-39 | new state, result, and the index stays linked to live bearers |
| `BearerManager.UeBearerManager.RemoveEpsBearer` | lib/src/common/bearer_manager.cc:41-51 | likewise for removal |
| `BearerManager.UeBearerManager.Reset` | lib/src/common/bearer_manager.cc:53-57 | both maps empty |
| `BearerManager.UeBearerManager.SetFiveQi` | lib/src/common/bearer_manager.cc:76-84 | only the 5QI of that bearer changes |
| `BearerManager.UeBearerManager.GetEpsBearerForLcid` | lib/src/common/bearer_manager.cc:70-74 | the lookup never misses and finds a live bearer with the LCID asked for |
| `BearerManager.AddExact` | lib/src/common/bearer_manager.cc:30-39 | adding keeps the index an exact inverse if and only if the LCID is not in use |
| `BearerManager.RemoveLinked` | lib/src/common/bearer_manager.cc:41-51 | removal leaves no index entry without its bearer |
| `BearerManager.SharedLcidIsLost` | lib/src/common/bearer_manager.cc:30-51 | two bearers with one LCID: removing either leaves the other without an index entry |
| `BearerManager.EnbBearerManager.AddEpsBearer` | lib/src/common/bearer_manager.cc:137-160 | the call joins the history that determines all later answers |
| `BearerManager.EnbBearerManager.RemoveEpsBearer` | lib/src/common/bearer_manager.cc:162-175 | likewise; an unknown user is ignored |
| `BearerManager.EnbBearerManager.RemUser` | lib/src/common/bearer_manager.cc:177-187 | likewise |
| `BearerManager.EnbBearerManager.SetFiveQi` | lib/src/common/bearer_manager.cc:216-223 | likewise; succeeds exactly if the bearer is active |
| `BearerManager.EnbBearerManager.HasActiveRadioBearer` | lib/src/common/bearer_manager.cc:189-196 | true exactly if some call added the bearer and no later call removed it or its user |
| `BearerManager.EnbBearerManager.GetRadioBearer` | lib/src/common/bearer_manager.cc:207-214 | the bearer with the type and LCID of the call that established it and the 5QI set last since then; the invalid one if none is active |
| `BearerManager.EnbBearerManager.GetLcidBearer` | lib/src/common/bearer_manager.cc:198-205 | an index entry leads to an active bearer with that LCID; if LCIDs were never shared, every bearer with the LCID is the one found |
| `BearerManager.ActiveExactly` | lib/src/common/bearer_manager.cc:137-196 | over every run the maps hold exactly the bearers added and not removed since, by themselves or with their user |
| `BearerManager.EstablishedBearer` | lib/src/common/bearer_manager.cc:137-223 | over every run a bearer is the one first added since its last removal; later additions under its identity change nothing |
| `BearerManager.FiveQiExactly` | lib/src/common/bearer_manager.cc:76-84 | the 5QI is that of the last call that set it, and zero if none did |
| `BearerManager.ActiveIsEstablished` | lib/src/common/bearer_manager.cc:137-196 | every active bearer has a call that established it |
| `BearerManager.RunLinked` | lib/src/common/bearer_manager.cc:137-223 | on every run each index entry names a live bearer with that LCID |
| `BearerManager.RunExact` | lib/src/common/bearer_manager.cc:137-223 | over a run the index is the exact inverse after every operation if and only if no operation adds a bearer under an LCID in use by another |
| `BearerManager.RunProjects` | lib/src/common/bearer_manager.cc:137-223 | what is known of a user is determined by that user's own operations, in any interleaving |
| `PacketHandoff.StepInv` | lib/examples/pdsch_enodeb.c:854-867 | every step of either thread keeps the invariant: one token, the counts of packets, what the buffer holds in a subframe, and which packets were encoded |
| `PacketHandoff.RunInv` | lib/examples/pdsch_enodeb.c:1116-1166 | so does every interleaving |
| `PacketHandoff.OneOutstanding` | lib/examples/pdsch_enodeb.c:398-398 | semaphore, producer, flag and consumer hold one token between them; while a packet is outstanding the buffer is not refilled |
| `PacketHandoff.MbmsSamplesEachPacket` | lib/examples/pdsch_enodeb.c:1070-1166 | in MBMS mode the subframe that releases the i-th packet found it in the buffer when it looked at the flag, and until the release the buffer is not refilled |
| `PacketHandoff.MbmsAirsNothing` | lib/examples/pdsch_enodeb.c:1146-1166 | in MBMS mode, on every run, no packet is encoded: the pattern is written over each of them |
| `PacketHandoff.AiredExactly` | lib/examples/pdsch_enodeb.c:1070-1166 | in either mode exactly the packets copied in between the writing over and the encoding of a subframe are encoded, each at most once and in order |
| `PacketHandoff.ReleasedExactly` | lib/examples/pdsch_enodeb.c:1076-1166 | the releasing subframe encoded the i-th packet if and only if the packet was there at the encoding and not when the buffer was written over; otherwise generated octets, never another packet |
| `PacketHandoff.EarlyPacketIsLost` | lib/examples/pdsch_enodeb.c:1076-1129 | outside MBMS mode, from every quiescent state: a packet copied in before the buffer is written over is released unencoded |
| `PacketHandoff.LatePacketIsLost` | lib/examples/pdsch_enodeb.c:1112-1129 | likewise one copied in after the encoding |
| `PacketHandoff.MidwayPacketIsAired` | lib/examples/pdsch_enodeb.c:1076-1129 | one copied in between is encoded |
| `PacketHandoff.SilentSubframe` | lib/examples/pdsch_enodeb.c:1076-1092 | a subframe that does not send writes over a waiting packet and leaves flag and semaphore alone |
| `PacketHandoff.MbmsTurn` | lib/examples/pdsch_enodeb.c:1070-1166 | in MBMS mode, from every quiescent state: without a packet nothing happens; with one, the loop takes note of it, encodes the pattern instead, releases it and gives the semaphore back |
| `PacketHandoff.Progress` | lib/examples/pdsch_enodeb.c:851-1166 | in either mode, in every state that keeps the invariant and is not at rest, some step is possible that brings the handoff closer to rest |
| `PacketHandoff.ReachableComesToRest` | lib/examples/pdsch_enodeb.c:851-1166 | in either mode every run can be continued until both threads are at rest with the semaphore free and every packet copied in released: no deadlock |
| `NetStream.BlockBytes` | lib/examples/pdsch_enodeb.c:847-850 | octets of a transport block |
| `NetStream.Conservation` | lib/examples/pdsch_enodeb.c:851-871 | the cutting loses nothing: blocks followed by the remainder are the stream |
| `NetStream.CopiedOutExactly` | lib/examples/pdsch_enodeb.c:857-862 | what is copied out of a block is the block if and only if the mode is MBMS or both halves are equal |
| `NetStream.CopiedOctets` | lib/examples/pdsch_enodeb.c:853-867 | of every whole stretch of the stream, and of nothing else, the stretch is copied out in MBMS mode, otherwise its first half twice |
| `NetStream.ConservationExactly` | lib/examples/pdsch_enodeb.c:851-871 | what is copied out, followed by the remainder, is the stream if and only if the mode is MBMS or every block consists of the same octets twice |
| `NetStream.BlocksExtend` | lib/examples/pdsch_enodeb.c:842-879 | later octets do not change complete blocks |
| `NetStream.ChunkingIrrelevant` | lib/examples/pdsch_enodeb.c:842-879 | over any row of non-empty reads, the blocks and the remainder depend on the stream alone |
| `NetStream.Receiver.Receive` | lib/examples/pdsch_enodeb.c:842-879 | one turn of the loop, in either mode: what is copied out of exactly the blocks of what was held and read, and the remainder held; an empty read discards it |
| `NetStream.Receiver.HandOver` | lib/examples/pdsch_enodeb.c:853-867 | the inner loop, in either mode; what remains is shorter than a block and lies at least a block behind the front |
| `CellConfig.SegmentMessage` | srsenb/src/enb_cfg_parser.cc:2675-2710 | at most 6400 octets: the segments concatenate to the data, are numbered from zero, hold at most 100 octets, and only the final one is marked last |
| `CellConfig.CheckLteCells` | srsenb/src/enb_cfg_parser.cc:1540-1566 | passes exactly when ports are 0,1,2,... and cell identities differ |
| `CellConfig.CheckNrCells` | srsenb/src/enb_cfg_parser.cc:1595-1677 | passes exactly when ports continue behind LTE and identities, PCIs, ports and bands are in order |
| `CellConfig.PortsAreDense` | srsenb/src/enb_cfg_parser.cc:1540-1635 | both checks pass if and only if the carriers use ports 0 to N-1 once each, identities differ within either list, and NR PCIs differ with their bands in order |
| `CellConfig.KnownSplits` | srsenb/src/enb_cfg_parser.cc:1955-1968 | each entry is kept or dropped by itself, exactly those that name a configured cell are kept, in order |
| `CellConfig.PruneScells` | srsenb/src/enb_cfg_parser.cc:1955-1968 | fails exactly if an entry names the cell itself; otherwise keeps, in order, exactly the entries that name another configured cell |

## Left out

- Bit widths are exact integer logarithms. The source computes them in single precision, which agrees for ranges up to 2^20; `WireForms.FieldWidthExactly` says what a narrower width would lose.
- BitRefs.CBitRef.AdvanceBits: takes fewer than 2^24 bits, where the single-precision quotients of the source are still right.
- `advance_bits` and `unpack` on a writing cursor, which leave stale bits behind it, are not part of `BitRef`.
- PerCodec.PackConstrained: the full 64-bit range is excluded because its size overflows in the source; signed integer types are not modelled.
- A value has an encoding in a message tree only if the codec is sure to read it back: for integers that is exactly `Integer.ComesBack`; for bit strings `BitString.Readable`, which is exact in the unaligned variant and for strings outside their bounds, and sufficient for aligned strings within them, where a length that is looked for at the wrong place may be found by coincidence. Extension groups are in the unaligned variant only, since no aligned message class has them.
- Integer.PackInteger: the value zero outside the bounds is excluded, since its logarithm is undefined in the source.
- BitString.ToNumber: up to 31 bits, beyond which the shifts of the source are undefined.
- Liblte.BitsToValue: up to 31 bits and for bytes that hold one bit each, beyond which the shifts of the source are undefined.
- MessageCodec.PackValue: takes a value that has an encoding; whether a message that is cut off is reported as a failure is stated for the elements only, some of which drop the result.
- MessageCodec.UnpackValue: fails where the input ends within a group count and what is left of the count exceeds the groups known; the source then looks for flags behind the end of its array.
- MessageProofs.AdditionsRoundTrip: for several unknown groups four octets are proved to suffice, not to be necessary, because a reader that lost its place may land on the right one by chance.
- The bytes held by an `ext_groups_packer_guard` while flags are set are a plain sequence; its growth on access is not modelled.
- Scratch arrays come from a pool in the source; here their size is a parameter up to the 13257 octets of a buffer and 256 for its bookkeeping, whose exact size depends on the platform, and allocation always succeeds.
- Printable strings, hexadecimal text of octet strings, fixed and bounded octet strings: they add members of the same kind.
- Numbers in JSON are decimal text; strings are written without escapes, as in the source.
- The read/write locks of the UE-side bearer manager, and logging everywhere.
- The enumeration of a user's bearers is by value in `EnbBearerManager`; the per-user class stands beside it.
- In the packet handoff, copying, writing over and encoding are one step each, and writing over covers all of the buffer: races between single octets, grants without an enabled block before the first transmission, and blocks of unequal size are not modelled. Subframes of MBMS mode that carry no MCH use another buffer and leave the flag alone.
- Parsing of configuration fields, band tables and message text encodings; in `CellConfig.CheckNrCells` the band checks are one flag per cell.
- References into growing vectors in the segmentation loops: segments are values here.
