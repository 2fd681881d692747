# AIS AIVDM codec in Dafny

This project models the two programs of aiskit, a small toolkit for AIS
(Automatic Identification System) radio messages. Those messages travel as
NMEA 0183 `!AIVDM` sentences.

- **aisdump.py** is the decoder. It reads a capture line by line and splits
  each line into its comma-separated fields. Multi-sentence payloads are
  buffered per sequence id until their last fragment arrives. Each complete
  payload is unarmored into a bitstream (every wire character carries six
  bits), and the parser for the message id in the first six bits reads the
  fields of its layout. There are seventeen layout functions serving
  nineteen ids (types 1 to 3 share one), plus a default one. They follow the
  message tables of ITU-R M.1371 Annex 8, at the bit ranges aisdump.py uses;
  the model takes those ranges, including the few that depart from the
  standard (listed below).
- **aiscraft.py** is the encoder for message type 5 (static and voyage
  related data). It lays out the fields as a fixed-width bitstream, armors
  it, cuts the armored payload into fragments of at most 62 characters, and
  frames each fragment as
  `!AIVDM,<count>,<number>,<sequence id>,A,<fragment>,0*<checksum>`. The
  checksum is the XOR of the characters between `!` and `*`, written as two
  upper-case hexadecimal digits.

Bitstreams are `seq<bool>`, with the first bit the most significant one.

Python slicing clips at the end of the string, and `int('', 2)` raises.
`Bits.Field` models `int(bits[a:b], 2)` the same way: a read that starts
inside the stream gives the value of the bits that remain, and a read that
starts past the end is an error. Every parser therefore succeeds exactly
when the last field it reads starts inside the bitstream, and its contract
states that length condition.

Each Python error the codec raises becomes one constructor of
`Wrappers.Error`. For example, `ValueError("Invalid AIS character")` is
`InvalidAisCharacter`, and `int('', 2)` is `EmptyBinaryLiteral`.

The loops of the source are Dafny methods, each proved equal to a
specification function:
- `DecodeArmoredAscii`, `DecodeText` and `ParseBinaryDataPayload` in aisdump;
- `ToSixbitAscii`, `CalculateChecksum` and `BuildNmea` in aiscraft;
- the reassembly loop, as the class `FragmentBuffer` holding the fragment
  map.

Everything else is a pure function. The `RoundTrip` module connects the two
programs:
- armoring and unarmoring are inverse;
- encoded text reads back as the decoder shows it;
- a type-5 stream parses back to the fields it was built from;
- the sentences the encoder writes pass through the decoder's loop and come
  back as the same payload, emitted once.

Points where the code does something other than what its comments or
specification suggest; the model follows the code:
- The type-5 fields add up to 423 bits, and the encoder then appends five
  spare zero bits (aiscraft.py:54-55). The stream is therefore 428 bits, not
  the 424 of the standard. The `ljust(424, '0')` at aiscraft.py:57 never
  changes it, and the armored payload is 72 characters in two sentences.
  Decoding the armored stream inserts four zero bits before its last two
  bits. Those last two bits are spare zeros, so the first 428 decoded bits
  are still the built stream.
- The text decoder applies `strip()`, which trims spaces at both ends, and
  then `rstrip('@')`.
- The base station report (type 4) subtracts 360 degrees from longitudes of
  180 degrees and more, and 180 degrees from latitudes of 90 degrees and
  more. This is not the two's-complement correction that types 9, 11, 17,
  18, 19 and 21 apply. Types 1 to 3 leave the position unsigned.
- Sentence ids:
  - A sentence with an empty sequence-id field reuses the id of the last
    line that had one.
  - A multi-fragment sentence that arrives before any id was ever bound
    raises a `NameError` outside the `try`, which ends the run.
  - A first fragment that is also the last is buffered, not emitted.
- The checksum is written by the encoder and never checked by the decoder.
- Bit ranges that depart from the Annex 8 tables; the model reads each one
  where the code does:
  - type 9 reads the DTE flag at bit 134 (aisdump.py:221), where the
    standard has bit 142;
  - type 16 reads a 2-bit spare after the first increment, before testing for
    the second destination (aisdump.py:312);
  - type 20 reads a 10-bit first increment at bits 59-68 (aisdump.py:468),
    where the standard has 11 bits;
  - type 21 reads the longitude from bit 163 (aisdump.py:485), where the
    standard has the position accuracy at 163 and the longitude from 164.

## Model

| member | source | states |
|---|---|---|
| Bits.Uint | aisdump.py:25 | the big-endian value of a bit string lies below 2^length |
| Bits.Format | aiscraft.py:35-55 | `format(v, '0<w>b')` has value v and length max(w, length of v's binary digits): it pads but never truncates |
| Bits.FormatWidth | aiscraft.py:35-55 | a formatted field is at least w bits, and exactly w bits iff v < 2^w |
| Bits.FormatUint | aisdump.py:9 | formatting the value of a w-bit string back into w bits gives the same string |
| Bits.UintFirstBits | aisdump.py:9 | two bit strings of equal length and value are equal |
| Bits.Slice | aisdump.py:25 | `s[a:b]` clips both ends at the end of s: the bits from a up to min(b, length), and empty when a is past the end |
| Bits.SliceFrom | aisdump.py:166 | `s[a:]` clips at the end of s |
| Bits.Field | aisdump.py:50 | `int(bits[a:b], 2)` succeeds iff a < length; its value is that of the clipped slice and lies below 2^(b-a); otherwise the empty-literal error |
| Bits.FieldOfPrefix | aisdump.py:50 | a field read depends only on the bits of its own slice |
| Bits.Signed | aisdump.py:210-216 | the two's-complement correction of a w-bit raw value lies in [-2^(w-1), 2^(w-1)) and is r or r - 2^w |
| Bits.SignedBoundaries | aisdump.py:210-216 | 2^(w-1) maps to -2^(w-1), 2^(w-1)-1 and 0 are unchanged |
| Bits.SignedIsTwosComplement | aisdump.py:210-216 | the correction equals the leading bit weighted -2^(w-1) plus the value of the other bits |
| Strings.Upper | aiscraft.py:7 | `str.upper()` keeps the length, maps each character by the ASCII case rule and leaves no lower-case letter |
| Strings.LeftJustify | aiscraft.py:57 | `ljust(n, pad)` keeps s as a prefix, pads to n and never shortens |
| Strings.Take | aiscraft.py:7 | `s[:n]` is the prefix of length min(n, length) |
| Strings.TrimLeft | aisdump.py:30 | `lstrip(c)` removes exactly the leading run of c |
| Strings.TrimRight | aisdump.py:30 | `rstrip(c)` removes exactly the trailing run of c |
| Strings.Strip | aisdump.py:30 | `strip()` is a contiguous piece of s, everything outside it is a space, and it has no space at either end |
| Strings.Decimal | aiscraft.py:96 | the decimal rendering of n is digits only, without a leading zero unless n is 0 |
| Strings.ParseDecimal | aisdump.py:596-599 | `int()` of a header field succeeds iff the field is a non-empty string of digits |
| Strings.ParseDecimalOfDecimal | aisdump.py:596 | reading back a rendered number gives the number |
| Strings.HexUpper | aiscraft.py:65 | upper-case hexadecimal digits, a single digit exactly below 16 |
| Strings.Hex2 | aiscraft.py:65 | `format(v, '02X')` has at least two upper-case hex digits, exactly two iff v < 256, and reads back as v |
| Strings.HexValueOfHexUpper | aiscraft.py:65 | the hexadecimal rendering reads back as the value |
| Strings.Split | aisdump.py:595 | `str.split(',')` yields at least one piece |
| Strings.SplitNoSeparator | aisdump.py:595 | a string without a comma splits into itself |
| Strings.SplitAtSeparator | aisdump.py:595 | splitting at the first separator gives the piece before it and then the pieces of the rest |
| Strings.SplitAtLastSeparator | aisdump.py:595 | splitting at the last separator gives the pieces before it and then the piece after it |
| SixBitAlphabet.AlphabetShape | aisdump.py:22 | the text alphabet has 64 entries: codes 0-31 are ASCII 64-95, codes 32-63 are ASCII 32-63 |
| SixBitAlphabet.AlphabetMembership | aiscraft.py:6 | a character is in the alphabet iff it lies between ' ' and '_' |
| SixBitAlphabet.IndexOf | aiscraft.py:8 | `str.index`: none iff absent, otherwise the first position holding the character |
| SixBitAlphabet.Code | aiscraft.py:8 | a character has a six-bit code iff it is in the alphabet, else the not-in-alphabet error |
| SixBitAlphabet.CodeIsIndex | aiscraft.py:8 | the code is the character's first position in the alphabet string, and it is an error exactly when the character is absent |
| SixBitAlphabet.CodeOfSymbol | aisdump.py:27 | looking up code v and taking the code of that symbol gives v |
| SixBitAlphabet.SymbolOfCode | aiscraft.py:8 | the symbol at a character's code is that character |
| AisDump.UnarmorChar | aisdump.py:12-19 | `ascii_to_sixbit` succeeds iff the character is in '0'..'W' or '`'..'w'; the code is below 64, and below 40 exactly for '0'..'W'; otherwise the invalid-character error |
| AisDump.Unarmor | aisdump.py:5-10 | decoding succeeds iff every character is a wire character, and gives six bits per character |
| AisDump.UnarmorPrefix | aisdump.py:5-10 | decoding a prefix of k characters gives the first 6k decoded bits |
| AisDump.UnarmorFirst | aisdump.py:5-10 | the first six decoded bits are the code of the first character |
| AisDump.DecodeArmoredAscii | aisdump.py:5-10 | the loop's result is what Unarmor specifies, including the error at the first bad character |
| AisDump.RawText | aisdump.py:24-29 | k codes are read iff every code starts inside the stream, giving k characters |
| AisDump.CodeCountBound | aisdump.py:24 | code k starts inside a field of n bits iff k < ceil(n/6) |
| AisDump.TextField | aisdump.py:21-30 | the text decoder succeeds iff its last code starts inside the stream; the text has at most ceil(n/6) characters, does not start with a space and does not end with '@' |
| AisDump.DecodeText | aisdump.py:21-30 | the loop decodes exactly what TextField specifies |
| AisDump.DecodeAttempt | aisdump.py:32-37 | character j is 48 plus the value of chunk j, always within 48..111 |
| AisDump.BinaryPayloadText | aisdump.py:32-37 | one character per started six-bit chunk, none the '?' fallback |
| AisDump.ParseBinaryDataPayload | aisdump.py:32-37 | the loop computes BinaryPayloadText |
| AisMessages.ParseDefault | aisdump.py:39-46 | succeeds iff the stream is longer than 6 bits; the id is the first six bits, the data is the value of the rest |
| AisMessages.FieldFrom | aisdump.py:41 | `int(bits[a:], 2)` succeeds iff a < length and reads the rest |
| AisMessages.ReadPosition | aisdump.py:271-278 | a longitude and a latitude, each the two's-complement correction of its (possibly clipped) slice; an error iff the latitude starts past the end |
| AisMessages.ParsePositionReport | aisdump.py:48-72 | succeeds iff longer than 128 bits; MMSI, heading and the unsigned longitude and latitude come from their bit ranges |
| AisMessages.ReadDimensions | aisdump.py:84-87 | succeeds iff the last dimension starts inside the stream; the four dimensions from their 9, 9, 6 and 6 bit ranges, the last one clipped at the end |
| AisMessages.ReadVoyageIdentity | aisdump.py:79-82 | AIS version, IMO number, and call sign and vessel name as the text decoder reads bits 70-111 and 112-231 |
| AisMessages.ReadVoyageParticulars | aisdump.py:83-95 | ship type, dimensions, fix type, the four ETA integers and the draught from their bit ranges |
| AisMessages.ParseStaticVoyageReport | aisdump.py:74-114 | succeeds iff longer than 416 bits; length and beam are sums of the dimensions; texts of at most 7, 20 and 20 characters |
| AisMessages.WrapLongitude | aisdump.py:128-130 | raw longitudes of 180 degrees and more move down by 360 degrees; the result is negative exactly in that case |
| AisMessages.WrapLatitude | aisdump.py:131-133 | raw latitudes of 90 degrees and more move down by 180 degrees; the result is negative exactly in that case |
| AisMessages.WrapIsNotTwosComplement | aisdump.py:128-133 | 181 and 91 degrees wrap to negative values, where the two's-complement correction keeps them |
| AisMessages.ParseBaseStationReport | aisdump.py:116-154 | succeeds iff longer than 149 bits; position by the wrap above; accuracy and RAIM are the bits at 78 and 148 |
| AisMessages.ParseAddressed | aisdump.py:156-179 | succeeds iff longer than 72 bits; keeps the data after bit 88 and its decode attempt |
| AisMessages.ParseBroadcast | aisdump.py:181-198 | succeeds iff longer than 40 bits; keeps only the decode attempt of the data after bit 56 |
| AisMessages.NotAvailableFrom | aisdump.py:206-208 | not available iff the raw value reaches the limit, otherwise the raw value |
| AisMessages.ParseSarAircraft | aisdump.py:200-238 | succeeds iff longer than 135 bits; altitude 4095, speed 1023 and course 3600 and more not available; position two's complement; DTE available iff bit 134 is clear |
| AisMessages.SarSentinels | aisdump.py:205-208 | for the 12-bit altitude and the 10-bit speed only the all-ones value is not available |
| AisMessages.ParseUtcInquiry | aisdump.py:240-256 | succeeds iff longer than 70 bits; source and destination MMSI from bits 8-37 and 40-69 |
| AisMessages.ParseUtcResponse | aisdump.py:259-301 | succeeds iff longer than 149 bits; position two's complement, unlike type 4 |
| AisMessages.ReadAssignmentGroup | aisdump.py:314-317 | a destination group succeeds iff its last field starts inside the stream |
| AisMessages.ParseAssignment | aisdump.py:303-337 | succeeds iff 93-94 bits long or longer than 146; the second group is present iff longer than 94 bits |
| AisMessages.ParseDgnssBroadcast | aisdump.py:339-365 | succeeds iff longer than 75 bits; 18-bit longitude and 17-bit latitude two's complement; keeps the data after bit 80 |
| AisMessages.ReadClassBFlags | aisdump.py:387-393 | the seven flags succeed iff bit 145 exists |
| AisMessages.ParseClassBPosition | aisdump.py:367-416 | succeeds iff longer than 146 bits; speed 1023 and more, heading 360 and more not available; position two's complement |
| AisMessages.ParseClassBExtended | aisdump.py:418-460 | succeeds iff longer than 295 bits; position two's complement; name of at most 20 characters |
| AisMessages.ParseDataLinkManagement | aisdump.py:462-478 | succeeds iff longer than 59 bits; the second offset is present iff longer than 81 bits, and then read from bits 69-80 |
| AisMessages.ParseAidToNavigation | aisdump.py:480-501 | succeeds iff longer than 191 bits; longitude, and latitude from the possibly clipped bits 191-217, two's complement; name of at most 20 characters |
| AisMessages.ParseChannelManagement | aisdump.py:503-514 | succeeds iff longer than 52 bits; both channels from their bit ranges |
| AisMessages.ParseStaticReport | aisdump.py:516-527 | the name is read only for part 0, and is not available iff the part is not 0 or the name decodes empty; success condition likewise |
| AisMessages.ParseSingleSlotBinary | aisdump.py:529-540 | succeeds iff longer than 38 bits; keeps the data after bit 40 |
| AisMessages.Dispatch | aisdump.py:542-563 | every id without a parser of its own goes to parse_default |
| AisMessages.ParseAis | aisdump.py:542-563 | the parser is chosen by the value of the first six bits |
| AisMessages.DispatchServes | aisdump.py:542-563 | the chosen parser succeeds iff the stream covers its layout, sets the id as message type, and yields the message kind of that id |
| AisMessages.ParseAisServes | aisdump.py:542-563 | the same stated for parse_ais on the bitstream alone |
| AisMessages.DecodeMessage | aisdump.py:612-615 | a bad wire character fails; a decoded message's id is the code of the first character and matches its kind |
| AisCraft.Padded | aiscraft.py:7 | exactly `length` characters: the upper-cased text, then spaces |
| AisCraft.EncodeChars | aiscraft.py:8 | succeeds iff every character is in the alphabet, six bits each |
| AisCraft.EncodeForAis | aiscraft.py:5-9 | succeeds iff every padded character is in the alphabet; exactly 6n bits |
| AisCraft.HeaderLength | aiscraft.py:35-39 | the first five fields take at least 70 bits, exactly 70 iff each fits its width |
| AisCraft.DimensionLength | aiscraft.py:43-46 | the dimensions take at least 30 bits, exactly 30 iff they fit |
| AisCraft.EtaLength | aiscraft.py:48-51 | the ETA takes at least 20 bits, exactly 20 iff it fits |
| AisCraft.ParticularsLength | aiscraft.py:42-52 | ship type to draught take at least 70 bits, exactly 70 iff they fit |
| AisCraft.LayoutLength | aiscraft.py:34-56 | the layout is never shorter than 428 bits, and exactly 428 iff every integer fits |
| AisCraft.BuildBitstream | aiscraft.py:11-59 | succeeds iff the three texts encode; at least 428 bits, exactly 428 iff every integer fits; the stream is the layout, untouched by the 424-bit ljust |
| AisCraft.ArmorChar | aiscraft.py:75-82 | codes 0-63 become wire characters that decode back to the same code; any other value is the invalid-value error |
| AisCraft.ArmorOfUnarmor | aisdump.py:12-19 | every wire character is the armoring of the code it carries |
| AisCraft.ArmorCodes | aiscraft.py:70-72 | character j is a wire character carrying the value of chunk j |
| AisCraft.Armor | aiscraft.py:67-73 | one wire character per started six-bit chunk |
| AisCraft.ToSixbitAscii | aiscraft.py:67-73 | the loop computes Armor |
| AisCraft.XorCodesAppend | aiscraft.py:62-64 | the XOR of a concatenation is the XOR of the parts' XORs |
| AisCraft.XorCodesAscii | aiscraft.py:62-64 | seven-bit text has a checksum below 128 |
| AisCraft.Checksum | aiscraft.py:61-65 | hexadecimal digits whose value is the XOR of the character codes, exactly two for seven-bit text |
| AisCraft.CalculateChecksum | aiscraft.py:61-65 | the loop computes Checksum |
| AisCraft.FragmentCountBound | aiscraft.py:89 | fragment i starts inside the payload iff i < ceil(length/62) |
| AisCraft.Fragment | aiscraft.py:95 | every fragment has 1 to 62 characters |
| AisCraft.Fragments | aiscraft.py:94-95 | ceil(length/62) fragments, in order |
| AisCraft.FragmentsPrefix | aiscraft.py:94-95 | the first k fragments are the first 62k characters of the payload |
| AisCraft.FragmentsConcat | aiscraft.py:94-95 | the fragments concatenate back to the payload |
| AisCraft.Frame | aiscraft.py:96 | the sentence body starts with '!', which the checksum skips |
| AisCraft.NmeaSentences | aiscraft.py:84-101 | ceil(length/62) sentences, sentence i carrying fragment i, the count, number i+1 and the sequence id |
| AisCraft.BuildNmea | aiscraft.py:84-101 | the loop yields NmeaSentences of the armored stream |
| Reassembly.ParseSentence | aisdump.py:595-600 | a line parses iff it has six or more fields, a numeric count and number, and an empty or numeric sequence id; the sentence holds those fields and field 5 |
| Reassembly.ParsedPrefix | aisdump.py:594-600 | the sentences of the lines before the first one that does not parse |
| Reassembly.Step | aisdump.py:601-611 | a single fragment is emitted and the buffer is unchanged; before any id is bound a fragment is an error; a new id is stored without emitting, even for the last fragment; a buffered id is appended to and emitted with its key removed on the last fragment; other keys are untouched |
| Reassembly.Run | aisdump.py:594-611 | one outcome per sentence |
| Reassembly.RunTrainPrefix | aisdump.py:601-611 | the first k fragments of a train under a fresh id leave their concatenation buffered and emit nothing |
| Reassembly.RunTrain | aisdump.py:601-611 | a whole train under a fresh id emits only its concatenation, on the last fragment, and the buffer ends as it began |
| Reassembly.FragmentBuffer.constructor | aisdump.py:591 | the buffer starts empty with no sequence id bound |
| Reassembly.FragmentBuffer.Feed | aisdump.py:598-611 | one iteration updates the buffer and the bound id as Step says and returns its outcome |
| Reassembly.FragmentBuffer.FeedLines | aisdump.py:594-611 | the loop runs Step over the parsed lines, stopping at the first unparsable line or unbound-id error, and ends in the state Run gives |
| RoundTrip.FormatOfBits | aisdump.py:9 | re-formatting a value read from bits gains leading zeros only |
| RoundTrip.UnarmorArmorCodes | aiscraft.py:67-73 | decoding the wire characters of k whole chunks gives back their 6k bits |
| RoundTrip.UnarmorArmor | aiscraft.py:67-73 | decoding an armored stream of whole chunks gives the stream; otherwise the last short chunk gains leading zeros |
| RoundTrip.UnarmorCharInjective | aisdump.py:12-19 | distinct wire characters carry distinct codes |
| RoundTrip.ArmorAppendGroup | aiscraft.py:67-73 | one more whole chunk adds one wire character |
| RoundTrip.ArmorUnarmor | aisdump.py:5-10 | armoring a decoded payload gives back the payload |
| RoundTrip.UnarmorChunks | aisdump.py:5-10 | decoded chunk j holds the code of character j |
| RoundTrip.RawTextOfEncoded | aisdump.py:24-29 | encoded text is read back character for character |
| RoundTrip.TextFieldOfEncoded | aisdump.py:21-30 | an encoded text field reads back as the text, stripped and trimmed of '@' |
| RoundTrip.PaddedShownText | aiscraft.py:7 | padding upper-case alphabet text keeps it and appends spaces |
| RoundTrip.StripTrailingSpaces | aisdump.py:30 | text followed by spaces strips back to the text |
| RoundTrip.ShownOfPadded | aiscraft.py:5-9 | upper-case alphabet text with no surrounding spaces or trailing '@' survives encoding and decoding unchanged |
| RoundTrip.LayoutPieces | aiscraft.py:34-56 | a built stream holds each field at the offset the decoder reads it from, with the five spare zero bits at 423-427 |
| RoundTrip.HeaderFields | aisdump.py:76-80 | id 5, repeat indicator, MMSI, AIS version and IMO number read back |
| RoundTrip.DimensionFields | aisdump.py:84-87 | the four dimensions read back |
| RoundTrip.EtaFields | aisdump.py:91-94 | the four ETA integers read back |
| RoundTrip.ParticularsRoundTrip | aisdump.py:83-95 | ship type, dimensions, fix type, ETA and draught read back |
| RoundTrip.IdentityRoundTrip | aisdump.py:79-82 | AIS version, IMO number, call sign and vessel name read back, the texts as the decoder shows them |
| RoundTrip.StaticVoyageRoundTrip | aisdump.py:74-114 | parsing a stream that starts with a built type-5 stream gives every integer field as given, length and beam as sums, and each text as shown |
| RoundTrip.SentenceFields | aiscraft.py:96-98 | a sentence is seven comma-separated fields, the last being the fill digit, '*' and the checksum |
| RoundTrip.SplitFields | aisdump.py:595 | seven comma-free fields joined by commas split back into those fields |
| RoundTrip.ParseOfNmeaSentence | aisdump.py:595-600 | the decoder reads back the count, number, sequence id and fragment of every sentence the encoder writes |
| RoundTrip.ParsedAll | aisdump.py:594-600 | when all lines parse, the parsed prefix is all their sentences |
| RoundTrip.ParseOfNmeaSentences | aisdump.py:594-600 | the sentences of a comma-free payload parse into its fragments, numbered from 1 |
| RoundTrip.NmeaReassembles | aisdump.py:601-611 | the encoder's sentences for a payload, fed to the loop, emit the payload once after the last sentence and leave the buffer as it was |
| RoundTrip.UnarmorOfBuilt | aisdump.py:5-10 | the decoded armored type-5 stream starts with the 428 built bits |
| RoundTrip.DecodeOfBuilt | aisdump.py:612-615 | decoding the armored built stream gives the report of the built fields |
| RoundTrip.ParseAisOfBuilt | aisdump.py:542-563 | parse_ais routes a built stream to the type-5 parser |
| RoundTrip.ArmoredBuilt | aiscraft.py:86-89 | the armored built stream is 72 wire characters without a comma |
| RoundTrip.TwoSentences | aiscraft.py:89-99 | a 72-character payload travels in two sentences and is emitted whole on the second |
| RoundTrip.VoyageReportEndToEnd | aisdump.py:591-615 | build, armor, frame, reassemble and decode: two sentences, one emission, the buffer unchanged, and the decoded report of the built fields |
| RoundTrip.StaticVoyageOfShown | aisdump.py:81-96 | call sign, vessel name and destination already in the form the decoder shows come back unchanged |

## Left out

- Command-line handling is not part of this model: argument parsing, the `--type` filter, `--id-only`, `print_data`, the SIGINT handler, reading the capture and the JSON input, and printing output or errors.
- Floating point is not modelled: speeds, courses, positions and the draught are kept in raw integer units (tenths, 1/600000 degree), and the encoder takes the draught already in integer tenths instead of `int(draught * 10)`.
- The ETA f-string of the type-5 report is display formatting; the model keeps its four integers.
- The checksum is never verified when decoding, in the source as in the model.
- The exceptions main catches around decoding are returned as `Err` values; printing them and continuing (or exiting on a `TypeError`) is control flow of the command line.
- AisCraft.StaticVoyageData: the encoder's input is a total record, so the defaults of 0 that `data.get` gives a missing repeat indicator, AIS version, IMO number or DTE (aiscraft.py:14-17, aiscraft.py:32) are for the caller to supply, and the `KeyError` for any other missing key (aiscraft.py:15-31) cannot arise.
- Negative integers given to the encoder are not modelled: every field is a `nat`, because Python's `format` would emit a '-' that the decoder cannot read.
- Strings.Upper: only the ASCII letters are upper-cased; Unicode case mappings are not modelled.
- Strings.Strip: only the space is removed, the one whitespace character of the six-bit alphabet; other whitespace cannot occur in decoded text.
- Strings.ParseDecimal: Python `int()` also accepts surrounding whitespace, a sign and underscores in a header field; the model accepts digits only.
- Reassembly.ParseSentence: the newline that ends each line of the capture is not modelled; lines are given without it.
- RoundTrip.NmeaReassembles: for a multi-sentence payload the model requires sequence id 9 to be free in the buffer, because main never clears a key that an unfinished earlier payload left under that id.
- RoundTrip.VoyageReportEndToEnd: states the same requirement on id 9.
- AisMessages.ParsePositionReport: like the other per-type parsers, its contract names the success condition, the message kind and id, and the fields with their own rule (sign correction, wrap, sentinel, optional group, text); the remaining plain fields are tied to their bit ranges only in the body.
