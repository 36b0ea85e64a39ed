# RCNB codec model

The project models librcnb, the C library behind the RCNB encoding.
RCNB turns binary data into text over four classes of Latin letters that look like R, C, N and B.
Two plaintext bytes form a 16-bit unit.
Its low 15 bits are written as four mixed-radix digits: 15 R symbols (weight 2250), 15 C symbols (weight 150), 15 N symbols (weight 10) and 10 B symbols.
The top bit is not spent on a symbol.
A unit with the top bit set is written in the order N B R C instead of R C N B.
An odd last byte is written as a pair of symbols: R C for a byte below 0x80, N B for the low 7 bits of a byte at or above 0x80.

The model is organised in these modules:

- `Alphabet` (alphabet.dfy): the four symbol classes of src/rcnb.c and the linear search `find` of src/cdecode.c.
- `UnitCodec` and `Stream` (unit_codec.dfy, stream.dfy): the value-level meaning of a group, a tail pair and a whole stream.
  These are the reference definitions the state machines below are proved against.
- `Encoder` and `Decoder` (encoder.dfy, decoder.dfy): the scalar streaming codec of src/cencode.c and src/cdecode.c.
  The encoder state (`cached`, `trailing_byte`) and the decoder state (`cached`, the four-slot `trailing_code`) are classes whose methods update them in place.
  The output buffers are arrays that the methods write through a position.
- `Lanes` and `Kernels` (lanes.dfy, kernels.dfy): the SIMD kernels `rcnb_encode_32n_asm` and `rcnb_decode_32n_asm`.
  The per-lane arithmetic (reciprocal division, table lookups, the decoder's hashes into 16-entry tables) is a set of pure functions on 16-bit lanes.
  The loop over 32-byte granules is a method over arrays.
  The SSSE3 and AVX2 versions in src/rcnb_x86.c and src/cencode_x86.c, and the NEON versions in src/rcnb_arm64.c and src/cencode_arm64.c, compute the same lanes in different register layouts.
  One model covers them all.
  The rows below cite the SSSE3 code.
  The same steps sit at these places in the other copies:
  - AVX2 in src/rcnb_x86.c: encode 410-498, decode 500-610.
  - NEON in src/rcnb_arm64.c: tables 14-29, encode 31-175, decode 177-268.
  - src/cencode_x86.c: tables 20-35, SSSE3 encode 51-209, AVX2 encode 215-303.
  - src/cencode_arm64.c: tables 13-21, encode 25-169.
- `SeqFacts` (seq_facts.dfy): generic lemmas about sequence slices used by the proofs.
- `Example` (example.dfy): the sentence that src/cencode.c and src/cdecode.c carry beside its 82-symbol encoding, with the proof that the model encodes the one to the other and decodes it back.

Every byte is read as unsigned (0..255) and every unit as 0..0xFFFF.
The C code reads them through a signed `short` in rcnb_encode_short and, where `char` is signed, through a signed `char` in rcnb_encode_byte and in the `<< 8 |` of rcnb_encode_block.
Each of these readings has its own as-written member: `Encoder.ShortIndicesAsWritten`, `Encoder.ByteIndicesAsWritten` and `Encoder.UnitAsWritten`.
The difference is recorded under Findings.

An encoder never emits an odd number of symbols, so a stream ending with one or three buffered symbols is malformed.
`Decoder.DecodeChecked` rejects such a stream.
`Decoder.Decode` follows the code, which does not (Finding F2).

## Model

| member | source | states |
|---|---|---|
| Alphabet.IndexOf | src/cdecode.c:32-39 | the result is -1 or a position in the class that holds the symbol |
| Alphabet.IndexOfFirst | src/cdecode.c:32-39 | the search finds the first occurrence, and returns -1 exactly when the symbol is absent |
| Alphabet.TableSizes | src/rcnb.c:10-18 | the classes hold 15, 15, 15 and 10 symbols, and the derived weights are sr*sc, sn*sb and sc*sn*sb |
| Alphabet.ClassesDistinct | src/rcnb.c:10-13 | no symbol occurs twice within a class |
| Alphabet.ClassesDisjoint | src/rcnb.c:10-13 | no symbol belongs to two classes, so a lookup identifies its class |
| Alphabet.CodePointsBelow0x300 | src/rcnb.c:10-13 | every symbol is a code point below 0x300, so its high byte is 0, 1 or 2 |
| Alphabet.IndexOfDistinct | src/cdecode.c:32-39 | in a class without repeats, looking up the k-th symbol gives k |
| Alphabet.NIsNotR | src/cdecode.c:48-48 | no N symbol is found among the R symbols, so an N first symbol marks a reversed group |
| UnitCodec.Digits | src/cencode.c:46-51 | the R, C, N and B symbols of a 15-bit value by division by 2250, 150 and 10; UnitCodec.DigitsOfValue proves the digits in range and recombining to the value |
| UnitCodec.DigitsOfValue | src/cencode.c:46-51 | the four digits of a 15-bit value are in range for their classes and give the value back by their weights |
| UnitCodec.ValueDigits | src/cdecode.c:63-66 | digits in range are recovered uniquely from their weighted sum |
| UnitCodec.DecodeUnit | src/cdecode.c:46-70 | an error from the group decoder is never the malformed-tail error |
| UnitCodec.DecodeTail | src/cdecode.c:72-88 | an error from the pair decoder is never the malformed-tail error |
| UnitCodec.DecodeForward | src/cdecode.c:46-70 | an R C N B group whose digits are worth at most 0x7FFF decodes to that value |
| UnitCodec.DecodeReversed | src/cdecode.c:46-70 | an N B R C group whose digits are worth at most 0x7FFF decodes to that value with the top bit set |
| UnitCodec.EncodeDigits | src/cencode.c:37-54 | a unit below 0x8000 is written as its digits in class order R C N B |
| UnitCodec.EncodeDigitsReversed | src/cencode.c:37-54 | a unit at or above 0x8000 is written as the digits of its low 15 bits in the order N B R C |
| UnitCodec.EncodeUnit | src/cencode.c:37-54 | the group of a unit has four symbols; UnitCodec.EncodeDigits and UnitCodec.EncodeDigitsReversed give its two layouts, UnitCodec.UnitRoundTrip its inverse |
| UnitCodec.EncodeTail | src/cencode.c:56-66 | the pair of a byte has two symbols; UnitCodec.EncodeTailRC and UnitCodec.EncodeTailNB give its two forms, UnitCodec.TailRoundTrip its inverse |
| UnitCodec.UnitRoundTrip | src/cdecode.c:46-70 | decoding the group of any unit gives the unit back |
| UnitCodec.UnitCanonical | src/cdecode.c:46-70 | every group the decoder accepts is the encoding of the unit it returns, so each unit has exactly one spelling |
| UnitCodec.UnitRejectsForeign | src/cdecode.c:48-62 | a group holding a symbol outside the alphabet is rejected as an invalid symbol |
| UnitCodec.UnitOutOfRange | src/cdecode.c:63-65 | the well-formed group of the largest digits is worth 33749 and is rejected as out of range |
| UnitCodec.TailRoundTrip | src/cdecode.c:72-88 | decoding the pair of any byte gives the byte back |
| UnitCodec.TailCanonical | src/cdecode.c:72-88 | every pair the decoder accepts is the encoding of the byte it returns |
| UnitCodec.TailRejectsForeign | src/cdecode.c:74-82 | a pair holding a symbol outside the alphabet is rejected as an invalid symbol |
| UnitCodec.EncodeTailRC | src/cencode.c:64-65 | a byte below 0x80 is written as its R and C digits |
| UnitCodec.EncodeTailNB | src/cencode.c:58-61 | a byte at or above 0x80 is written as the N and B digits of its low 7 bits |
| UnitCodec.UnitOrientation | src/cencode.c:40-45 | the first symbol of a group is an R symbol exactly when the unit's top bit is clear |
| UnitCodec.TailOrientation | src/cencode.c:58-64 | the first symbol of a pair is an R symbol exactly when the byte is below 0x80 |
| Stream.Unit | src/cencode.c:75-81 | the unit of two plaintext bytes read unsigned, high byte times 256 plus low byte; Stream.UnitBytesOfUnit proves the decoder's two bytes give the pair back |
| Stream.UnitBytes | src/cdecode.c:67-68 | the two bytes written for a unit, high byte first, form that unit again |
| Stream.EncodePairsLength | src/cencode.c:80-81 | every complete pair of bytes gives four symbols |
| Stream.EncodePairs | src/cencode.c:80-81 | the groups of the complete pairs in order, each pair a unit with its first byte high; Stream.EncodePairsLength and Stream.EncodePairsAppend state its length and how it splits |
| Stream.EvenThenOdd | src/cencode.c:80-85 | the complete pairs and the carried odd byte make up the whole input |
| Stream.EvenPart | src/cencode.c:80-81 | the bytes encoded as pairs are an even number |
| Stream.OddTail | src/cencode.c:82-85 | at most one byte is left over for the carry |
| Stream.EncodeAll | src/cencode.c:100-108 | a plaintext of n bytes encodes to exactly 2n symbols |
| Stream.DecodeAll | src/cdecode.c:131-147 | an accepted stream of s symbols decodes to s/2 bytes |
| Stream.EncodePairsAppend | src/cencode.c:68-87 | cutting the plaintext at an even position cuts its groups at the same place |
| Stream.EncodeAllAppend | src/cencode.c:68-87 | after an even prefix, the encoding of the rest is the encoding of the suffix |
| Stream.RoundTrip | src/cdecode.c:131-147 | decoding the encoding of any plaintext gives the plaintext back |
| Stream.Canonical | src/cdecode.c:131-147 | every accepted stream is the encoding of what it decodes to |
| Stream.PairOfByte | src/cdecode.c:72-88 | a stream of two symbols decodes to a given byte exactly when it is that byte's pair |
| Stream.DecodeAllByGroups | src/cdecode.c:107-117 | an accepted stream is its whole groups, all accepted, followed by an accepted remainder |
| Stream.GroupsAt | src/cdecode.c:107-111 | one step of the group loop: the group at a position and the groups after it give the groups from that position on |
| Stream.DecodeGroups | src/cdecode.c:107-111 | the whole groups give two bytes each, and all of them are consumed when none is rejected |
| Stream.DecodeAllStep | src/cdecode.c:107-111 | a stream of at least four symbols is accepted exactly when its first group and the rest are, and decodes to the first group's bytes followed by the rest's |
| Encoder.EncodeShort | src/cencode.c:37-54 | writes exactly the four symbols of the unit at the position, returns the position after them, and changes nothing else |
| Encoder.EncodeByte | src/cencode.c:56-66 | writes exactly the two symbols of the byte at the position, returns the position after them, and changes nothing else |
| Encoder.EncodeState.constructor | src/cencode.c:32-35 | a new state carries no byte |
| Encoder.EncodeState.Pending | src/cencode.c:74-85 | the carried plaintext is one byte exactly when the cached flag is set |
| Encoder.EncodeState.Init | src/cencode.c:32-35 | init drops the carried byte |
| Encoder.EncodeState.EncodeBlock | src/cencode.c:68-87 | writes the groups of the complete pairs of the carried byte plus the block, returns their symbol count, carries the odd byte left over, changes nothing past the groups, and leaves everything as it was for an empty block |
| Encoder.EncodeState.UpdateCarry | src/cencode.c:74-85 | after a block, the carried byte is the odd one left when the old carry plus the block is cut into pairs |
| Encoder.EncodeState.CarryOdd | src/cencode.c:82-85 | an odd count of bytes after the carried one carries the last byte; an even count keeps the stored byte |
| Encoder.EncodeState.EncodeBlockEnd | src/cencode.c:89-98 | writes the pair of the carried byte, if any, then a NUL; the count includes the NUL; nothing is carried afterwards |
| Encoder.EncodePairLoop | src/cencode.c:80-81 | the loop writes the groups of the first count pairs contiguously and nothing outside them |
| Encoder.EncodeGroups | src/cencode.c:74-81 | the carried byte and the block are written as the groups of their complete pairs |
| Encoder.EncodeCarried | src/cencode.c:74-81 | a carried byte and the first block byte form the first group, followed by the groups of the remaining complete pairs |
| Encoder.EncodeUncarried | src/cencode.c:80-81 | with nothing carried, the block's complete pairs are written as groups |
| Encoder.Encode | src/cencode.c:100-108 | writes the complete encoding of the plaintext followed by a NUL, returns 2n+1, and changes nothing past them |
| Encoder.EncodeAllTerminated | src/cencode.c:100-108 | a block followed by a block end writes the complete encoding of the plaintext and its NUL |
| Encoder.ChunkedEncoding | src/cencode.c:68-98 | encoding a plaintext block by block, carrying odd bytes between blocks, gives the same symbols as encoding it in one piece |
| Encoder.CDiv | src/cencode.c:46-51 | C division truncates toward zero: it agrees with the model's division on non-negative values and is never positive for negative ones |
| Encoder.CRem | src/cencode.c:46-51 | the C remainder agrees on non-negative values and keeps the sign of a negative dividend |
| Encoder.AsShort | src/cencode.c:37 | a unit read as a 16-bit short is negative exactly when its top bit is set |
| Encoder.TopBitIndexesBelowZero | src/cencode.c:37-54 | as written, a unit below 0x8000 indexes the tables with its digits, and a unit at or above 0x8000 produces a negative table index |
| Encoder.ShortIndicesAsWritten | src/cencode.c:37-54 | as written, rcnb_encode_short reads four table positions, computed by C division on the unit read as a signed short |
| Encoder.AsChar | src/cencode.c:56 | a byte read as a signed char is negative exactly when it is at or above 0x80 |
| Encoder.ByteIndicesAsWritten | src/cencode.c:56-66 | as written with a signed char, rcnb_encode_byte always takes the R C branch and reads two table positions by C division |
| Encoder.SignedByteIndexesBelowZero | src/cencode.c:56-66 | as written with a signed char, a byte below 0x80 indexes with its R C digits, and a byte at or above 0x80 produces a negative table index |
| Encoder.OrWithPromoted | src/cencode.c:75-81 | in 32 bits, ORing a promoted signed char into a value whose low byte is clear gives the char itself when it is negative and the sum otherwise |
| Encoder.UnitAsWritten | src/cencode.c:75-81 | as written with a signed char, `hi << 8 \| lo` cut to 16 bits |
| Encoder.SignExtendedUnit | src/cencode.c:75-81 | as written with a signed char, a low byte below 0x80 gives the intended unit, and one at or above 0x80 gives the unit with high byte 0xFF, which then reads a table at a negative position |
| Encoder.SignExtensionCollides | src/cencode.c:75-81 | as written with a signed char, two pairs that differ only in the high byte give the same unit when the low byte is at or above 0x80 |
| Encoder.EncodeByteAsWritten | src/cencode.c:56-66 | as written, both symbols are stored, but a byte at or above 0x80 advances the position by one only |
| Encoder.TailEndAsWritten | src/cencode.c:89-98 | as written, the block end after a carried byte at or above 0x80 overwrites its B symbol with the NUL and returns 2, and after a smaller byte writes both symbols and the NUL and returns 3; nothing else in the output changes |
| Encoder.LostSymbolUndecodable | src/cencode.c:56-66 | the symbol left by the as-written block end is the N digit of the byte's low 7 bits; alone it is not a decodable stream, and the only symbol that completes it to a stream decoding to the byte is the overwritten B symbol |
| Decoder.Find | src/cdecode.c:32-39 | the linear search returns the first position of the symbol in the class, or -1 |
| Decoder.DecodeShort | src/cdecode.c:46-70 | succeeds exactly when the group decodes; it then writes the unit's two bytes high byte first and advances by 2; it changes nothing else |
| Decoder.GroupValue | src/cdecode.c:46-66 | succeeds exactly when the group decodes, and then returns its unit |
| Decoder.UnitByIndices | src/cdecode.c:46-70 | a group with a missing symbol is rejected; otherwise it is accepted exactly when its digits are worth at most 0x7FFF, with the top bit set for a reversed group |
| Decoder.DecodeByte | src/cdecode.c:72-88 | succeeds exactly when the pair decodes; it then writes the byte and advances by 1; it changes nothing else |
| Decoder.TailByIndices | src/cdecode.c:72-88 | a pair read as R C, or as N B when that fails, is accepted exactly when its value fits in 7 bits, with the top bit set in the N B reading |
| Decoder.BlockSpec | src/cdecode.c:90-118 | an accepted block of at least two symbols writes half of what precedes its remainder and carries two symbols exactly when the remainder holds at least two |
| Decoder.CarriedSpec | src/cdecode.c:97-106 | a block after a carried pair is accepted only if the pair and the first two symbols form a valid group; otherwise nothing is written and the pair stays |
| Decoder.DecodeState.constructor | src/cdecode.c:41-44 | a new state carries nothing |
| Decoder.DecodeState.Pending | src/cdecode.c:112-116 | the carried symbols are a pair exactly when the cached flag is set |
| Decoder.DecodeState.Init | src/cdecode.c:41-44 | init drops the carried pair |
| Decoder.DecodeState.DecodeBlock | src/cdecode.c:90-118 | the result and the written bytes are those of the block specification for the carried pair and the block; the new carry is that specification's carry; nothing outside the written bytes changes |
| Decoder.DecodeState.DecodeCarriedBlock | src/cdecode.c:97-118 | a block after a carried pair behaves as the carried-block specification says |
| Decoder.DecodeState.DecodeGroupsAfter | src/cdecode.c:107-117 | after what is already written, the whole groups of the text are decoded in order, stopping at the first rejected one; an accepted text carries its last pair |
| Decoder.DecodeState.DecodeCarriedGroup | src/cdecode.c:97-102 | the carried pair plus the first two symbols are decoded as one group, and the carried pair is kept |
| Decoder.DecodeState.CarryPair | src/cdecode.c:112-116 | the carry becomes the last two symbols when the count of symbols past the whole groups is at least two |
| Decoder.DecodeState.DecodeBlockEnd | src/cdecode.c:120-129 | with nothing carried, succeeds writing nothing; otherwise succeeds exactly when the carried pair decodes, writes its byte and clears the carry, and keeps the carry on failure; nothing outside the written byte changes |
| Decoder.DecodeGroupLoop | src/cdecode.c:107-111 | the loop writes the bytes of the whole groups contiguously, stopping at the first rejected group |
| Decoder.DecodeGroupAt | src/cdecode.c:107-111 | one loop iteration either writes the group's two bytes and moves on, or stops with the groups from there rejected and nothing written |
| Decoder.BlockSpecPlain | src/cdecode.c:90-118 | a block with nothing carried decodes the whole groups of the block and carries its last pair |
| Decoder.BlockSpecCarried | src/cdecode.c:97-106 | a block after a carried pair agrees with the carried-block specification |
| Decoder.DecodeSpec | src/cdecode.c:131-147 | an accepted stream never yields more than half its symbol count in bytes |
| Decoder.Decode | src/cdecode.c:131-147 | as written, returns -1 when the specification of the code as written rejects, and otherwise the byte count; accepted or not, the output starts with the bytes the block and the block end wrote, and nothing past them changes |
| Decoder.DecodeSpecGroups | src/cdecode.c:131-147 | as written, a stream is accepted exactly when its groups are accepted and non-empty and a final pair exists and decodes |
| Decoder.EvenPlaintextRejected | src/cdecode.c:140-146 | as written, the encoding of every plaintext of even length two or more is rejected |
| Decoder.SingleByteRejected | src/cdecode.c:140-142 | as written, the encoding of a single byte is rejected |
| Decoder.OddPlaintextDecoded | src/cdecode.c:131-147 | as written, the encoding of a plaintext of odd length three or more decodes back to it |
| Decoder.AcceptedEvenIsCorrect | src/cdecode.c:131-147 | whatever the as-written decoder accepts from a stream of even length is the stream's true decoding |
| Decoder.OddLengthAccepted | src/cdecode.c:112-116 | as written, a group, a stray symbol and a pair (seven symbols) are accepted although no encoding has odd length |
| Decoder.UnitThenStrayPair | src/cdecode.c:107-116 | as written, a seven-symbol stream of a group, a stray symbol and a pair yields the group's bytes and the pair's byte |
| Decoder.OddMalformed | src/cdecode.c:131-147 | the reference decoding rejects every stream of odd length |
| Decoder.DecodeCheckedSpec | src/cdecode.c:131-147 | the corrected decoder never accepts an odd number of symbols |
| Decoder.EndBytes | src/cdecode.c:120-129 | the block end writes one byte exactly when a pair is carried and decodes, and that byte is the pair's value |
| Decoder.DecodeWritten | src/cdecode.c:131-147 | the bytes rcnb_decode leaves in the output are at most half the symbol count, and are the decoded bytes whenever it accepts |
| Decoder.CheckedWritten | src/cdecode.c:131-147 | the bytes the corrected decoder leaves in the output are at most half the symbol count, and are the decoded bytes whenever it accepts |
| Decoder.DecodeChecked | src/cdecode.c:131-147 | the corrected decoder returns -1 when its specification rejects, and otherwise the byte count; accepted or not, the output starts with the bytes written, and nothing past them changes |
| Decoder.DecodeCheckedBlocks | src/cdecode.c:136-146 | the corrected block and block end return -1 when the block fails or the carried pair does not decode, and otherwise the byte count; the block's bytes are written even when it fails, the block end's byte follows them when it succeeds, and nothing past them changes |
| Decoder.CheckedEnd | src/cdecode.c:143-146 | the corrected block end keeps the block's bytes and appends the carried pair's byte when it decodes; it returns -1 only for a rejected pair, which stays carried, and otherwise clears the carry; nothing past the written bytes changes |
| Decoder.EvenBlockAgrees | src/cdecode.c:90-129 | on an even number of symbols, one block and the block end accept exactly what the reference decoding accepts, with the same bytes |
| Decoder.CheckedSpecGroups | src/cdecode.c:131-147 | the corrected decoder accepts exactly when the whole groups are accepted and the final pair, if any, decodes |
| Decoder.CheckedAgrees | src/cdecode.c:131-147 | the corrected decoder accepts exactly the streams the reference decoding accepts, and yields the same bytes |
| Decoder.CheckedRoundTrip | src/cdecode.c:131-147 | the corrected decoder gives back every plaintext from its encoding |
| Decoder.CheckedCanonical | src/cdecode.c:131-147 | every stream the corrected decoder accepts is the encoding of what it returns |
| Lanes.SplitLaneDigits | src/rcnb_x86.c:89-106 | the lane computation of the four digits by reciprocal multiplication and subtraction gives the true quotients and remainders for every 15-bit value |
| Lanes.MulLo | src/rcnb_x86.c:92 | the low 16 bits of a lane product, as `_mm_mullo_epi16` and `vmulq_n_u16`; Lanes.RemainderLane proves the wrapped product still gives the remainder |
| Lanes.MulHi | src/rcnb_x86.c:90 | the high 16 bits of a lane product, as `_mm_mulhi_epu16`; Lanes.Reciprocal2250 proves the reciprocal quotient exact |
| Lanes.Add16 | src/rcnb_x86.c:98 | lane addition modulo 2^16, as `_mm_add_epi16`; Lanes.NextRemainder proves the accumulated sums exact |
| Lanes.Sub16 | src/rcnb_x86.c:94 | lane subtraction modulo 2^16, as `_mm_sub_epi16` and `vsubq_u16`; Lanes.RemainderLane proves the difference is the remainder |
| Lanes.LaneRC | src/rcnb_x86.c:98 | the weighted R and C digits `c_mul_150`; Lanes.NextRemainder proves the lane minus it is the remainder modulo 150 |
| Lanes.LaneR | src/rcnb_x86.c:89-90 | the R digit of a lane by reciprocal multiplication; Lanes.Reciprocal2250 proves it is the quotient by 2250 |
| Lanes.LaneC | src/rcnb_x86.c:92-96 | the C digit of a lane from its remainder by 2250; Lanes.SplitLaneDigits proves it is the true digit |
| Lanes.LaneN | src/rcnb_x86.c:98-102 | the N digit of a lane from its remainder by 150; Lanes.SplitLaneDigits proves it is the true digit |
| Lanes.LaneB | src/rcnb_x86.c:104-106 | the B digit of a lane as the lane minus its weighted digits; Lanes.SplitLaneDigits proves it is the remainder by 10 |
| Lanes.Reciprocal2250 | src/rcnb_x86.c:89-90 | the high half of x*59653 shifted right by 11 is x/2250 for every 15-bit x |
| Lanes.Reciprocal150 | src/rcnb_x86.c:95-96 | the high half of x*55925 shifted right by 7 is x/150 for every x below 2250 |
| Lanes.Reciprocal10 | src/rcnb_x86.c:101-102 | the high half of x*52429 shifted right by 3 is x/10 for every x below 150 |
| Lanes.RemainderLane | src/rcnb_x86.c:92-94 | the 16-bit product and difference give the remainder modulo 2250 |
| Lanes.NextRemainder | src/rcnb_x86.c:98-106 | the accumulated 16-bit products give the remainders modulo 150 and 10 |
| Lanes.RTablesRebuild | src/rcnb_x86.c:21-28 | the low-byte and high-byte tables rebuild every R symbol |
| Lanes.CTablesRebuild | src/rcnb_x86.c:21-28 | the low-byte and high-byte tables rebuild every C symbol |
| Lanes.NTablesRebuild | src/rcnb_x86.c:29-36 | the low-byte and high-byte tables rebuild every N symbol |
| Lanes.BTablesRebuild | src/rcnb_x86.c:29-36 | the low-byte and high-byte tables rebuild every B symbol |
| Lanes.RLo | src/rcnb_x86.c:21-22 | the low bytes of the R symbols, rc_lo.first; Lanes.RTablesRebuild proves they rebuild class R |
| Lanes.CLo | src/rcnb_x86.c:21-23 | the low bytes of the C symbols, rc_lo.second; Lanes.CTablesRebuild proves they rebuild class C |
| Lanes.NLo | src/rcnb_x86.c:29-30 | the low bytes of the N symbols, nb_lo.first; Lanes.NTablesRebuild proves they rebuild class N |
| Lanes.BLo | src/rcnb_x86.c:29-31 | the low bytes of the B symbols, nb_lo.second; Lanes.BTablesRebuild proves they rebuild class B |
| Lanes.RHi | src/rcnb_x86.c:25-26 | the high bytes of the R symbols, rc_hi.first |
| Lanes.CHi | src/rcnb_x86.c:25-27 | the high bytes of the C symbols, rc_hi.second |
| Lanes.NHi | src/rcnb_x86.c:33-34 | the high bytes of the N symbols, nb_hi.first |
| Lanes.BHi | src/rcnb_x86.c:33-35 | the high bytes of the B symbols, nb_hi.second |
| Lanes.TableSymbol | src/rcnb_x86.c:126-134 | the symbol a low byte and a high byte of the tables make is below 0x300 |
| Lanes.EncodeLane | src/rcnb_x86.c:71-193 | one encode lane writes four symbols; Lanes.EncodeLaneAgrees proves they are the scalar group of its unit |
| Lanes.EncodeLaneAgrees | src/rcnb_x86.c:71-193 | a lane of the vector encoder writes the same four symbols as the scalar encoder for the unit of its two bytes |
| Lanes.OrientationOfR | src/rcnb_x86.c:320-325 | the sign hash of every R symbol selects the forward orientation |
| Lanes.OrientationOfN | src/rcnb_x86.c:320-325 | the sign hash of every N symbol selects the reversed orientation |
| Lanes.STbl | src/rcnb_x86.c:48 | s_tbl: 255 at the slots of the N symbols, 0 elsewhere; Lanes.OrientationOfR and Lanes.OrientationOfN prove it tells the orientation |
| Lanes.RTbl | src/rcnb_x86.c:38-39 | rc_tbl.first, the R index at each hash slot; Lanes.RTableInverts proves it |
| Lanes.CTbl | src/rcnb_x86.c:38-40 | rc_tbl.second, the C index at each hash slot; Lanes.CTableInverts proves it |
| Lanes.NTbl | src/rcnb_x86.c:43-44 | nb_tbl.first, the N index at each hash slot; Lanes.NTableInverts proves it |
| Lanes.BTbl | src/rcnb_x86.c:43-45 | nb_tbl.second, the B index at each hash slot; Lanes.BTableInverts proves it |
| Lanes.SignSlot | src/rcnb_x86.c:320-321 | the orientation hash of a first symbol is one of the eight slots of s_tbl |
| Lanes.HashSlot | src/rcnb_x86.c:339-341 | the class hash ((c * k) mod 2^16) >> 12; the table lemmas prove it is one-to-one on each class |
| Lanes.BSlot | src/rcnb_x86.c:342-346 | the B hash (c + (c >> 1) + (c >> 3)) & 15; Lanes.BSlotIgnoresWrap and Lanes.BTableInverts state its properties |
| Lanes.CodeUnit | src/rcnb_x86.c:247-256 | the 16-bit code unit the kernels load for a symbol |
| Lanes.RTableInverts | src/rcnb_x86.c:339-365 | the R hash table gives back the index of every R symbol |
| Lanes.CTableInverts | src/rcnb_x86.c:339-365 | the C hash table gives back the index of every C symbol |
| Lanes.NTableInverts | src/rcnb_x86.c:339-365 | the N hash table gives back the index of every N symbol |
| Lanes.BTableInverts | src/rcnb_x86.c:342-365 | the B hash table gives back the index of every B symbol |
| Lanes.BSlotIgnoresWrap | src/rcnb_x86.c:342-346 | the 16-bit wrap-around of the B hash additions does not change the four bits kept |
| Lanes.SlotsOf | src/rcnb_x86.c:320-365 | the orientation and the four indices of a group in range are recovered by the hashes |
| Lanes.WithSign | src/rcnb_x86.c:394-396 | a reversed lane gets the top bit set, and a forward lane is unchanged |
| Lanes.DecodeLane | src/rcnb_x86.c:320-397 | one decode lane: the orientation, the four class indices and the unit; Lanes.DecodeLaneInverts and Lanes.DecodeLaneAgrees tie it to the scalar decoder |
| Lanes.DecodeLaneInverts | src/rcnb_x86.c:320-397 | a lane of the vector decoder gives back every unit from its group |
| Lanes.DecodeLaneForward | src/rcnb_x86.c:320-397 | a forward group of digits in range decodes to their weighted sum, with no range check |
| Lanes.DecodeLaneReversed | src/rcnb_x86.c:320-397 | a reversed group of digits worth at most 0x7FFF decodes to their sum with the top bit set |
| Lanes.DecodeLaneAgrees | src/rcnb_x86.c:320-397 | on every group the scalar decoder accepts, the lane decodes the same unit |
| Lanes.LaneSkipsRangeCheck | src/rcnb_x86.c:367-397 | the group worth 33749 is rejected by the scalar decoder but accepted by the lane, which yields 33749 |
| Kernels.EncodeLanes | src/rcnb_x86.c:71-229 | the vector encoder's lanes over every complete pair of the input, in memory order; Kernels.EncodeLanesAgree proves them equal to the scalar groups |
| Kernels.EncodeLanesAgree | src/rcnb_x86.c:71-229 | the vector encoder's lanes write the same symbols as the scalar encoder's groups |
| Kernels.DecodeLanes | src/rcnb_x86.c:231-404 | the decode lanes over every complete group of four symbols, in memory order; Kernels.LanesLength and Kernels.LanesAgree state their count and their bytes |
| Kernels.LanesLength | src/rcnb_x86.c:231-404 | 4m symbols make m decode lanes |
| Kernels.LanesAppend | src/rcnb_x86.c:231-404 | lanes of concatenated symbols are the concatenated lanes |
| Kernels.Gather | src/rcnb_x86.c:367-401 | the bytes of the lanes' units, high byte first, and whether every lane is good; Kernels.GatherAppend and Kernels.GatherGood state how it splits and when it is good |
| Kernels.GatherAppend | src/rcnb_x86.c:367-401 | gathering concatenated lanes concatenates their bytes, and they are good exactly when both parts are |
| Kernels.GatherGood | src/rcnb_x86.c:367-376 | a run of lanes is good exactly when no lane is bad |
| Kernels.KernelGather | src/rcnb_x86.c:367-401 | the granule fold over the lanes; Kernels.KernelGatherStops proves it succeeds exactly when no lane is bad and stores a prefix of whole granules |
| Kernels.KernelDecode | src/rcnb_x86.c:231-404 | what the decode kernel leaves for a run of symbols; Kernels.KernelAgrees and Kernels.KernelRoundTrip tie it to the scalar decoder |
| Kernels.KernelGatherStops | src/rcnb_x86.c:387-401 | the granule loop succeeds exactly when every lane is good and then stores all bytes; otherwise it stores a prefix made of whole granules |
| Kernels.KernelAt | src/rcnb_x86.c:387-401 | the fold from a granule on is that granule's bytes followed by the rest, or a failure with nothing more when the granule is bad |
| Kernels.LanesAgree | src/rcnb_x86.c:231-404 | on a stream of whole groups that the reference decoding accepts, the lanes are all good and give its bytes |
| Kernels.KernelAgrees | src/rcnb_x86.c:231-404 | on whole granules that the reference decoding accepts, the decode kernel succeeds with the same bytes |
| Kernels.KernelRoundTrip | src/rcnb_x86.c:231-404 | the decode kernel gives back every whole-granule plaintext from the encode kernel's output |
| Kernels.Store | src/rcnb_x86.c:399-401 | a store writes the granule at its position and changes nothing else |
| Kernels.EncodeGranule | src/rcnb_x86.c:73-193 | one iteration computes the 64 symbols of the scalar encoding of its 32 bytes |
| Kernels.EncodeStep | src/rcnb_x86.c:72-193 | one iteration extends the written prefix by the next granule's groups and keeps the rest of the output |
| Kernels.PairsOfGranules | src/rcnb_x86.c:72-201 | the encoding of the first i+1 granules is the encoding of the first i followed by that of the next granule |
| Kernels.EncodeKernel | src/rcnb_x86.c:71-229 | after n granules the output starts with the scalar encoding of the first 32n bytes, and nothing past it changes |
| Kernels.DecodeGranule | src/rcnb_x86.c:233-401 | one iteration stores the granule's bytes only when all its lanes are good, and otherwise changes nothing |
| Kernels.DecodeStep | src/rcnb_x86.c:232-403 | a good granule extends the stored prefix; a bad one ends the loop with the kernel's failure and the stores made so far |
| Kernels.DecodeGranules | src/rcnb_x86.c:232-403 | the loop's result and stores are those of the kernel fold over the lanes |
| Kernels.DecodeKernel | src/rcnb_x86.c:231-404 | returns 1 exactly when every lane is good; the output starts with the stored bytes and nothing past them changes |
| Kernels.GranulesOfLanes | src/rcnb_x86.c:232-403 | the lanes of the j-th granule are the j-th slice of the lanes of the whole input |
| Example.GroupsFrom | src/cencode.c:80-81 | a plaintext whose every pair from position j on has the four digits listed for it encodes, from j on, to the symbols of those digits |
| Example.Assembled | src/cencode.c:100-108 | twenty such pairs and a last byte encode to the twenty groups followed by the last byte's pair |
| Example.PublishedEncoding | src/cencode.c:110-114 | the 41 bytes of "The Quick Brown RC Jumps Over the NB Dog." encode to the 82 symbols printed beside them |
| Example.DecodesBack | src/cdecode.c:131-147 | the encoding of a plaintext of odd length three or more is decoded back to it by the decoder as written and by the corrected one |
| Example.PublishedDecodes | src/cdecode.c:149-153 | the 82 published symbols decode to the 41 bytes of the sentence, as written and corrected |

## Left out

- Input and output: the command-line tool and the example programs are not part of this model.
- The 4-byte `wchar_t` paths of the vector kernels. The decode lanes read a symbol as its code point mod 0x10000 (Lanes.CodeUnit), as the 2-byte loads and the NEON narrowing `vmovn_u32` do. The x86 4-byte loads narrow with `_mm_packs_epi32` (src/rcnb_x86.c:257-281), which saturates a code point above 0x7FFF instead of cutting it; the two readings agree on every symbol of the alphabet, all below 0x300, and differ only on foreign symbols above 0xFFFF or between 0x8000 and 0xFFFF. The encode kernels' 4-byte stores are not modelled; they widen the same symbols.
- Register shuffles, unpacks, permutes and the byte swizzle of the vector kernels: the model works on the lanes in stream order.
- The dispatch between scalar and vector code in the library's callers: callers outside the listed files are not part of this model.
- Encoder.EncodeShort: models the intended reversed layout, which steps back four slots where cencode.c:49 steps back two. The source never reaches that branch (Finding F3).
- Encoder.EncodeState.EncodeBlock: reads each byte unsigned. Where `char` is signed, cencode.c:75 and :81 sign-extend a low byte at or above 0x80; that reading is Encoder.UnitAsWritten (Finding F6).
- Encoder.EncodeByte: reads the byte unsigned and writes both symbols. Where `char` is signed, the reading is Encoder.ByteIndicesAsWritten (Finding F5); where it is unsigned, the lost symbol is Encoder.EncodeByteAsWritten (Finding F4).
- Decoder.DecodeState: uses the `cached` flag and four-slot buffer of cdecode.c. The header include/rcnb/cdecode.h declares a different state layout; the header is not part of this model.
- Kernels.DecodeKernel: reads only whole granules. Symbols past the last whole granule are left to the scalar code.
- Lanes.DecodeLaneForward: the vector decoder checks only hash-table membership, with no range check, so it accepts groups worth more than 0x7FFF (Lanes.LaneSkipsRangeCheck).

## Findings

| source | as written | input that shows it | evidently intended | confidence | as-written member | corrected member |
|---|---|---|---|---|---|---|
| src/cdecode.c:131-147 | `rcnb_decode` takes a zero return from the block or the block end as failure, but both return 0 on success when they write nothing | the plaintext "ab" (4 symbols): the block end writes nothing and the call returns -1; a single byte: the block only caches and the call returns -1 | failures are told apart from empty successes, so every encoding decodes | not executed | Decoder.EvenPlaintextRejected | Decoder.CheckedRoundTrip |
| src/cdecode.c:112-116 | the final pair is taken from `length_in & 2`, so an odd count of symbols is not rejected | a group, one stray symbol, then a valid pair (7 symbols) decodes to three bytes | streams of odd length are rejected as malformed | not executed | Decoder.OddLengthAccepted | Decoder.CheckedAgrees |
| src/cencode.c:37-54 | the unit is passed as `short`, so `value_in > 0x7FFF` is never true and units at or above 0x8000 index the tables with negative digits | the bytes 0x80 0x00 (unit 0x8000) read `cr[-14]` | the unit is unsigned and is written N B R C | not executed | Encoder.TopBitIndexesBelowZero | UnitCodec.UnitRoundTrip |
| src/cencode.c:56-66 | where `char` is unsigned, the N B branch stores the B symbol without advancing the pointer, so the block end's NUL overwrites it | the plaintext [0x80] gives the symbol for n followed by NUL, with size 2 | the pointer advances past both symbols, as in the R C branch | not executed | Encoder.LostSymbolUndecodable | Encoder.EncodeState.EncodeBlockEnd |
| src/cencode.c:56-66 | where `char` is signed, `value_in > 0x7F` never holds, so a byte at or above 0x80 takes the R C branch and is divided as a negative number | the plaintext [0x80] as a last byte reads `cr[-8]` | the byte is read unsigned and written as the N B pair of its low 7 bits | not executed | Encoder.SignedByteIndexesBelowZero | UnitCodec.TailRoundTrip |
| src/cencode.c:75-81 | where `char` is signed, `hi << 8 \| lo` sign-extends a low byte at or above 0x80 over the high byte | the bytes 0x00 0x80 and 0x01 0x80 both give the unit 0xFF80, which then reads a table at a negative position | the unit is hi * 256 + lo with both bytes unsigned | not executed | Encoder.SignExtensionCollides | Stream.UnitBytesOfUnit |
