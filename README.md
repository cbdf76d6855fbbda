# NTLM client messages and responses, in Dafny

This project models the NTLM client of `src/ntlm.rs`. That client implements
[MS-NLMP], the NT LAN Manager authentication protocol, and the model covers
the message codec and the challenge-response computation:

- the 8-byte security buffers that locate variable-length fields;
- the builder that writes a fixed part and a trailing data block
  (`append_sec_buffer*`);
- text in UTF-16LE or a code page, chosen by the negotiated flags;
- the `OsVersion` structure;
- AV_PAIR target information (`NtlmTargetInfoEntry`);
- NEGOTIATE, CHALLENGE and AUTHENTICATE message bodies;
- the `NTLMSSP\0` envelope;
- the LM, NTLMv1 and NTLMv2 keys, DES-long, and the four
  `respond_challenge_*` variants;
- `ChallengeResponse::to_message`.

Each encoder is a function that states the bytes it produces. The encoders
that build buffers step by step in the source are also imperative methods,
proved equal to those functions. The methods use a `MessageWriter` class for
the fixed part, the data block and the running offset. The decoders are
functions, except the target-information loop, which is a method.

Round trips are proved for each message body, under Unicode, for
well-formed strings that fit 16-bit lengths, and for a version that is
either announced by the NEGOTIATE_VERSION flag or the all-zero default
(without the flag the decoder does not read the version the encoder always
writes), and, for CHALLENGE, for target-information entries with
even-length data and canonical type codes (the decoder refuses odd
lengths for every type and reads a known code back as its named type). Two further conditions come from defects of the source, listed
under Findings:

- A NEGOTIATE body decodes only when its two strings total at least 4
  stored bytes, because the decoder asks for 32 bytes while the fixed part
  has 28. With the corrected minimum the condition goes away
  (`Negotiate.CorrectedRoundTrip`).
- A CHALLENGE body does not round-trip through the source's encoder at all.
  It does through the corrected one (`Challenge.RoundTrip`).

The envelope `Messages.ToBytes` uses the source's encoders, so its round
trip covers NEGOTIATE, AUTHENTICATE and unknown message types.
`Messages.CorrectedToBytes` uses the corrected challenge encoder and
round-trips all four.

The hash and cipher primitives, the platform code pages and `to_uppercase`
are not defined here. They are fields of two parameter datatypes,
`Responses.Crypto` and `Text.TextCodec`. The random client challenge and the
time are parameters as well.

Files:

- `Wrappers.dfy`, `Bytes.dfy`, `Errors.dfy`, `Flags.dfy`: results, byte
  widths and little-endian integers, the two error enumerations, and the
  32 flag bits.
- `Text.dfy`: UTF-16 strings and the flag-driven text encoding.
- `SecurityBuffers.dfy`: `NtlmSecurityBuffer`, plus the generic lemma that a
  buffer written by the builder resolves to its field.
- `Writer.dfy`: the message builder.
- `OsVersions.dfy`, `TargetInfo.dfy`: the version structure and the AV_PAIR
  list.
- `Negotiate.dfy`, `Challenge.dfy`, `Authenticate.dfy`, `Messages.dfy`: the
  three message bodies and the envelope.
- `Responses.dfy`: keys, responses and `to_message`.

## Model

| member | source | states |
|---|---|---|
| Bytes.U32RoundTrip | src/ntlm.rs:659-706 | reading back the 4 little-endian bytes of a u32 gives the same number |
| Bytes.U16RoundTrip | src/ntlm.rs:704-705 | reading back the 2 little-endian bytes of a u16 gives the same number |
| Bytes.U32FromLe | src/ntlm.rs:372 | `u32::from_le_bytes`: the value whose little-endian bytes are the given four |
| Bytes.U16FromLe | src/ntlm.rs:737 | `u16::from_le_bytes`: the value whose little-endian bytes are the given two |
| Bytes.I64ToLe | src/ntlm.rs:973 | `i64::to_le_bytes`: 8 bytes which, read back as two little-endian 32-bit halves, give the time modulo 2^64 (two's complement for a negative time) |
| Flags.FromBits | src/ntlm.rs:36-73 | every 32-bit word is a flag set; all 32 bits are named, so no bit is dropped |
| Flags.ToLe | src/ntlm.rs:434 | the 4 bytes of a flag set read back as the same flags |
| Text.Utf16LeBytesToString | src/ntlm.rs:312-321 | an odd length fails with `ItemLengthNotDivisible(2, len)`; success iff the code units are well-formed UTF-16; on success re-encoding gives the input bytes |
| Text.Utf16RoundTrip | src/ntlm.rs:312-321 | a well-formed string encoded as UTF-16LE decodes back to itself |
| Text.Utf16LeBytes | src/ntlm.rs:297-299 | two bytes per code unit (the byte order is fixed by its inverse `CodeUnits`, see `CodeUnitsOfUtf16LeBytes`) |
| Text.CodeUnits | src/ntlm.rs:316-318 | one code unit per two bytes (the inverse of `Utf16LeBytes`, see the two lemmas below) |
| Text.CodeUnitsOfUtf16LeBytes | src/ntlm.rs:316-318 | pairing the bytes of an encoded string gives its code units back |
| Text.Utf16LeBytesOfCodeUnits | src/ntlm.rs:316-318 | encoding the code units paired from an even-length byte string gives those bytes back |
| Text.OemBytesToString | src/ntlm.rs:323-326 | fails with `InvalidOemEncoding(bytes)` exactly when the code page rejects the bytes |
| Text.NtlmBytesToString | src/ntlm.rs:328-336 | Unicode wins over OEM; with neither flag the result is `NeitherUnicodeNorOem` |
| Text.NtlmStringToBytes | src/ntlm.rs:295-306 | UTF-16LE under Unicode; under OEM exactly the bytes the ANSI code page gives, or `NonOemEncodable` when it refuses; otherwise `NeitherUnicodeNorOem` |
| Text.UnicodeTextRoundTrip | src/ntlm.rs:295-336 | under Unicode, storing a well-formed string and reading it back gives the string |
| SecurityBuffers.TryFrom | src/ntlm.rs:696-714 | succeeds iff given exactly 8 bytes, otherwise `ItemLengthMismatch(8, len)`; the buffer read re-encodes to those 8 bytes |
| SecurityBuffers.RoundTrip | src/ntlm.rs:657-714 | decoding the 8 bytes of a buffer gives the buffer |
| SecurityBuffers.ForSlice | src/ntlm.rs:647-655 | length and capacity are the slice length, and the offset is 0 |
| SecurityBuffers.SecurityBuffer.ApplyToSlice | src/ntlm.rs:665-694 | an empty buffer yields nothing; a start outside the slice is `StartOutOfRange`; an end past it is `EndOutOfRange`; otherwise the `length` bytes at `offset + adjust` |
| SecurityBuffers.SliceIsInBounds | src/ntlm.rs:665-694 | a buffer resolves iff it is empty or its adjusted range lies inside the slice, and then to exactly `length` bytes |
| SecurityBuffers.ResolvesToField | src/ntlm.rs:275-288 | a buffer written at offset `|before| + 12` resolves, with adjustment -12, to the field placed after `before` |
| SecurityBuffers.FieldResolves | src/ntlm.rs:275-288 | in a fixed part followed by fields laid end to end, the i-th buffer written by the builder resolves to the i-th field |
| SecurityBuffers.ConcatAppend | src/ntlm.rs:277 | laying out two runs of fields is laying out each and concatenating |
| SecurityBuffers.ConcatBound | src/ntlm.rs:648-649 | n fields of at most 65535 bytes take at most n·65535 bytes |
| Writer.MessageWriter.constructor | src/ntlm.rs:422-432 | an empty fixed part and data block, with the offset at the start of the data block |
| Writer.MessageWriter.AppendSecBuffer | src/ntlm.rs:275-288 | the data goes to the data block unchanged; a buffer of its length at the old offset goes to the fixed part; the offset advances by the length |
| Writer.MessageWriter.AppendOptSecBuffer | src/ntlm.rs:290-293 | an absent field is an empty buffer at the current offset; a present one is appended as by `AppendSecBuffer` |
| Writer.MessageWriter.AppendSecBufferString | src/ntlm.rs:295-310 | on an encoding error nothing changes and the error is returned; otherwise the encoded text is appended as by `AppendSecBuffer` |
| Writer.MessageWriter.AppendFixed | src/ntlm.rs:434 | `extend_from_slice` on the fixed part; the data block and the offset do not change |
| Writer.MessageWriter.AppendData | src/ntlm.rs:499-500 | `extend_from_slice` on the data block; the fixed part and the offset do not change |
| Writer.MessageWriter.Finish | src/ntlm.rs:438 | the message is the fixed part followed by the data block |
| OsVersions.OsVersion.ToBytes | src/ntlm.rs:385-394 | major, minor, build (little-endian), the 3 reserved bytes, then the revision: 8 bytes |
| OsVersions.TryFrom | src/ntlm.rs:396-418 | succeeds iff given exactly 8 bytes, otherwise `ItemLengthMismatch(8, len)`; the result re-encodes to the input |
| OsVersions.RoundTrip | src/ntlm.rs:385-418 | decoding the bytes of a version gives the version |
| OsVersions.DefaultIsZeros | src/ntlm.rs:166-177 | the default version encodes as 8 zero bytes |
| TargetInfo.TypeToU16 | src/ntlm.rs:230-247 | named types have codes 0 to 10; an unknown type keeps its own code |
| TargetInfo.TypeFromU16 | src/ntlm.rs:248-265 | a code is unknown iff it is above 10 |
| TargetInfo.TypeCodeRoundTrips | src/ntlm.rs:230-265 | u16 to type to u16 is the identity; type to u16 to type is the identity iff the type is canonical |
| TargetInfo.EntryToBytes | src/ntlm.rs:717-728 | type (little-endian 16-bit), length (little-endian 16-bit), then the data |
| TargetInfo.EntryFromBytes | src/ntlm.rs:730-755 | fewer than 4 bytes, or 4 + length beyond the input, gives `ItemMinLengthMismatch`; an odd length gives `ItemLengthNotDivisible` reporting the whole remaining length; on success the input is the entry's encoding followed by the rest |
| TargetInfo.EntryRoundTrip | src/ntlm.rs:717-755 | decoding an encoded entry followed by anything gives the entry and exactly what followed |
| TargetInfo.ListFromBytes | src/ntlm.rs:545-550 | every decoded entry has even-length data and a canonical type |
| TargetInfo.ListReencode | src/ntlm.rs:545-550 | re-encoding a decoded list reproduces the input bytes |
| TargetInfo.ListRoundTrip | src/ntlm.rs:501-550 | a list of representable entries decodes back from its encoding |
| TargetInfo.ListToBytes | src/ntlm.rs:501-503 | the entries' encodings concatenated: 4 header bytes plus the data per entry (its inverse is `ListFromBytes`, see `ListRoundTrip` and `ListReencode`) |
| TargetInfo.ListFromBytesStep | src/ntlm.rs:545-550 | one iteration of the decode loop: an entry error ends the loop with that error; otherwise the entry is prepended to the rest's result |
| TargetInfo.ParseList | src/ntlm.rs:545-550 | the `while` loop over the remaining bytes returns exactly `ListFromBytes` |
| TargetInfo.EntryToString | src/ntlm.rs:757-759 | an odd-length entry fails with `ItemLengthNotDivisible`; a decoded string re-encodes to the entry's data |
| TargetInfo.EntryFromString | src/ntlm.rs:761-770 | the entry has the given type and two bytes per code unit |
| TargetInfo.EntryStringRoundTrip | src/ntlm.rs:757-770 | a well-formed string stored in an entry reads back unchanged |
| TargetInfo.EntryStringReencode | src/ntlm.rs:757-770 | an entry whose data reads as a string is the entry stored from that string |
| Negotiate.ToBytes | src/ntlm.rs:420-440 | succeeds iff both strings encode; the body is 28 + their lengths, with the version at 20..28 whatever the flags, then domain ‖ workstation |
| Negotiate.EncodedAs | src/ntlm.rs:420-440 | once both strings are stored, the body is the layout of flags, two buffers, version and the stored data |
| Negotiate.LayoutParts | src/ntlm.rs:434-438 | flags at 0..4, the domain buffer at offset 40, the workstation buffer just after the domain data, the version, then the data |
| Negotiate.Encode | src/ntlm.rs:420-440 | the builder's sequence of appends produces exactly `ToBytes` |
| Negotiate.Parse | src/ntlm.rs:442-478 | `try_from` for a given minimum length: a shorter body fails with `ItemMinLengthMismatch(min, len)`, and a decoded body is at least that long |
| Negotiate.FromBytes | src/ntlm.rs:442-478 | the decoder as written: a body shorter than 32 bytes fails with `ItemMinLengthMismatch(32, len)` |
| Negotiate.CorrectedFromBytes | src/ntlm.rs:448-450 | the decoder with the minimum lowered to the 28-byte fixed part the encoder writes |
| Negotiate.DecodedVersion | src/ntlm.rs:456-460 | without the version flag the default version is reported; with it, the bytes at 20..28 |
| Negotiate.DecodedStrings | src/ntlm.rs:462-476 | under Unicode both buffers resolve, with adjustment -12, to the UTF-16LE bytes of the decoded strings |
| Negotiate.NeitherEncodingRefused | src/ntlm.rs:468-469 | with neither Unicode nor OEM, a body whose buffers resolve is refused with `NeitherUnicodeNorOem` |
| Negotiate.DecodesWhen | src/ntlm.rs:442-478 | the decoder, for any minimum the body meets, returns a message when the flags, both resolved strings and the version agree with it |
| Negotiate.LayoutFixedPart | src/ntlm.rs:434-460 | the decoder reads back the flags, both buffers and the version that the encoder wrote |
| Negotiate.LayoutSlices | src/ntlm.rs:434-466 | both buffers written by the encoder resolve to the stored strings |
| Negotiate.UnicodeLayout | src/ntlm.rs:420-440 | under Unicode the encoder stores the UTF-16LE bytes of both strings |
| Negotiate.LayoutDecodes | src/ntlm.rs:420-478 | the Unicode layout of a message decodes to the message under any minimum no longer than the layout |
| Negotiate.RoundTrip | src/ntlm.rs:420-478 | under Unicode, for well-formed strings of at least 4 stored bytes in total, whose version is announced or default, decode(encode(m)) = m |
| Negotiate.EmptyStringsDoNotDecode | src/ntlm.rs:448-450 | a Unicode message with two empty strings encodes to 28 bytes, which the decoder rejects with `ItemMinLengthMismatch(32, 28)` |
| Negotiate.CorrectedRoundTrip | src/ntlm.rs:420-478 | with the 28-byte minimum, every Unicode message with well-formed strings that fit and an announced or default version decodes to itself, empty strings included |
| Challenge.ToBytes | src/ntlm.rs:480-510 | corrected encoder, context in the fixed part: succeeds iff the target name encodes, and otherwise returns that error |
| Challenge.EncodedParts | src/ntlm.rs:480-510 | flags at 8..12, the challenge at 12..20, the two context words at 20..28, the version at 36..44, then name ‖ target info |
| Challenge.Encode | src/ntlm.rs:480-510 | the corrected builder's appends produce exactly `ToBytes` |
| Challenge.FromBytes | src/ntlm.rs:512-561 | fewer than 44 bytes fails with `ItemMinLengthMismatch(44, len)`; the challenge is bytes 12..20; every decoded target-info entry is representable |
| Challenge.Decode | src/ntlm.rs:512-561 | the decoder with its target-info `while` loop returns exactly `FromBytes` |
| Challenge.DecodesWhen | src/ntlm.rs:512-561 | the decoder returns a message when the flags, challenge, context, both resolved fields and the version agree with it |
| Challenge.LayoutFixedPart | src/ntlm.rs:521-535 | the decoder reads back both buffers, flags, challenge, context and version from the corrected layout |
| Challenge.LayoutSlices | src/ntlm.rs:540-541 | both buffers of the corrected layout resolve to the name and the target information |
| Challenge.LayoutDecodes | src/ntlm.rs:480-561 | the Unicode layout of a message decodes to the message |
| Challenge.RoundTrip | src/ntlm.rs:480-561 | under Unicode, for a well-formed name, representable target information and an announced or default version, decode(encode(m)) = m |
| Challenge.ToBytesAsWritten | src/ntlm.rs:480-510 | the source's encoder succeeds iff the target name encodes |
| Challenge.EncodeAsWritten | src/ntlm.rs:480-510 | the source's sequence of appends, the context going to the data block, produces exactly `ToBytesAsWritten` |
| Challenge.AsWrittenLayout | src/ntlm.rs:480-510 | as written, the fixed part is 36 bytes and the name starts at body byte 36, while its buffer records offset 56 (body byte 44) |
| Challenge.AsWrittenEmptyChallenge | src/ntlm.rs:480-510 | the bytes the source writes for an empty Unicode challenge: the target-info buffer sits where the context belongs |
| Challenge.AsWrittenDoesNotRoundTrip | src/ntlm.rs:480-561 | that message decodes with context (0, 56) instead of (0, 0) |
| Authenticate.ToBytes | src/ntlm.rs:563-591 | succeeds iff the domain, user and workstation names all encode |
| Authenticate.EncodedParts | src/ntlm.rs:563-591 | the first failing name (domain, then user, then workstation) is the error; otherwise the length is 60 plus the six fields, with flags at 48..52, the version at 52..60 and the LM response at 60 |
| Authenticate.StoredOf | src/ntlm.rs:563-591 | the six stored fields fit, and the encoding is the fixed part followed by them in order |
| Authenticate.Stored.Buffer | src/ntlm.rs:581-586 | the i-th buffer records the i-th field's length, at offset 72 plus the lengths of the fields before it |
| Authenticate.Stored.BufferOffsets | src/ntlm.rs:565-586 | the six buffers, their offsets running from 72 |
| Authenticate.FixedPartIs | src/ntlm.rs:581-588 | the fixed part built with the builder's running offsets is the six buffers, the flags and the version |
| Authenticate.Layout | src/ntlm.rs:563-591 | the body is 60 bytes plus the six fields, and after byte 60 holds lm ‖ nt ‖ domain ‖ user ‖ workstation ‖ key |
| Authenticate.LayoutParts | src/ntlm.rs:581-589 | flags at 48..52, the version at 52..60, the LM response from 60 |
| Authenticate.Encode | src/ntlm.rs:563-591 | the builder's appends produce exactly `ToBytes` |
| Authenticate.FromBytes | src/ntlm.rs:593-644 | fewer than 60 bytes fails with `ItemMinLengthMismatch(60, len)` |
| Authenticate.DecodesWhen | src/ntlm.rs:593-644 | the decoder returns a message when the flags, all six resolved fields and the version agree with it |
| Authenticate.UnicodeLayout | src/ntlm.rs:563-591 | under Unicode the encoder stores the UTF-16LE bytes of the three names |
| Authenticate.LayoutFixedPart | src/ntlm.rs:602-614 | the decoder reads back the six buffers, the flags and the version |
| Authenticate.LayoutSlice | src/ntlm.rs:619-624 | each of the six buffers resolves to its field |
| Authenticate.LayoutDecodes | src/ntlm.rs:563-644 | the Unicode layout of a message decodes to the message |
| Authenticate.RoundTrip | src/ntlm.rs:563-644 | under Unicode, for well-formed names, fields of at most 65535 bytes and an announced or default version, decode(encode(m)) = m |
| Messages.MessageNumber | src/ntlm.rs:147-157 | 1, 2, 3 for the three message types, and the carried type for any other |
| Messages.ToBytes | src/ntlm.rs:339-358 | fails iff the body fails, with its error; otherwise the signature, the little-endian type, then the body as the source encodes it (a challenge by `Challenge.ToBytesAsWritten`) |
| Messages.Encode | src/ntlm.rs:339-358 | the buffer extended with signature, type and body produces exactly `ToBytes` |
| Messages.FromBytes | src/ntlm.rs:360-383 | under 12 bytes is `ShortHeader(12, len)`; a wrong signature is `MagicMismatch`; a decoded message has the header's type; an unknown type keeps the raw body |
| Messages.HeaderRoundTrip | src/ntlm.rs:339-383 | the signature and type of an encoded message read back as written |
| Messages.DispatchesOnType | src/ntlm.rs:370-381 | the bytes after the header go to the decoder of the type the header names |
| Messages.OtherRoundTrip | src/ntlm.rs:353-355 | a message of a type other than 1, 2 or 3 travels unchanged |
| Messages.RoundTrip | src/ntlm.rs:339-383 | decode(encode(m)) = m for negotiate and authenticate messages whose bodies round-trip, and for messages of other types |
| Messages.ChallengeDoesNotRoundTrip | src/ntlm.rs:347-349 | the envelope of the empty challenge decodes to a challenge with context (0, 56), not to itself |
| Messages.CorrectedToBytes | src/ntlm.rs:339-358 | the envelope with the corrected challenge encoder: the signature, the type, then the body, or the body's error |
| Messages.CorrectedRoundTrip | src/ntlm.rs:339-383 | with the corrected challenge encoder, decode(encode(m)) = m for every message whose body round-trips, challenges included |
| Responses.PadTo | src/ntlm.rs:833-835 | the bytes are kept as a prefix, followed by zeros, up to at least n bytes |
| Responses.PadWithZeros | src/ntlm.rs:833-835 | the `while len < n push(0)` loop yields exactly `PadTo` |
| Responses.DesLongIsDesl | src/ntlm.rs:798-823 | `des_long` is DESL: the key padded with 5 zeros to 21 bytes and cut into three 7-byte DES keys, whose encryptions of the data are concatenated |
| Responses.LmKeyDependsOnFirst14 | src/ntlm.rs:825-856 | the LM key depends only on the first 14 padded bytes of the upper-cased OEM password |
| Responses.LmKeyOfUnencodable | src/ntlm.rs:829-832 | a password without an OEM encoding gives the all-zero key |
| Responses.LmPassword | src/ntlm.rs:825-856 | the source's steps, padding in a loop, yield exactly `LmKey` |
| Responses.NtlmV2KeyUserCase | src/ntlm.rs:867-887 | user names that upper-case alike give the same v2 key |
| Responses.V1NoLmRepeatsNtlm | src/ntlm.rs:909-926 | the no-LM variant is v1 with the NTLM response in the LM field |
| Responses.V1SessionKeys | src/ntlm.rs:889-963 | every v1 variant's session key is MD4 of the NTLM key, and its responses are 24 bytes |
| Responses.V1ExtendedLayout | src/ntlm.rs:928-963 | the LM field is the client challenge followed by 16 zeros; the NTLM field's three 8-byte blocks are DES, under the three 7-byte slices of the NTLM key padded to 21 bytes, of MD5(server ‖ client challenge)[0..8] |
| Responses.RespondV1Extended | src/ntlm.rs:928-963 | the source's steps, padding in a loop, yield exactly `V1Extended` |
| Responses.Blob | src/ntlm.rs:969-977 | the NTLMv2 client blob is 32 bytes plus the target information |
| Responses.BlobLayout | src/ntlm.rs:969-977 | the blob is [1, 1, 0×6], then the time as little-endian i64, then the client challenge, 4 zeros, the target information, and 4 zeros; each reads back |
| Responses.V2Verifies | src/ntlm.rs:965-1015 | both v2 fields pass a server's HMAC check; the NTLM field is proof ‖ blob (48 + target-info bytes); the LM field is 24 bytes ending in the client challenge; the session key is HMAC(k, proof) |
| Responses.RespondV2 | src/ntlm.rs:965-1015 | the blob built by pushes and `for` loops, and the three fields, yield exactly `V2` |
| Responses.ResponsesFit | src/ntlm.rs:991-1003 | the v2 fields fit 16-bit buffer lengths for up to 65487 bytes of target information |
| Responses.ToMessageRoundTrip | src/ntlm.rs:773-788 | `to_message` yields an AUTHENTICATE message with the response, the names, the flags and the default version, which decodes back unchanged from its encoding |

## Left out

- DES, MD4, MD5 and HMAC-MD5 are not defined. They are fields of
  `Responses.Crypto`, and only their output widths are known. DES takes the
  7-byte key slices the source passes, with no parity expansion. The source
  does not show whether the `des` crate accepts 7-byte keys.
- HMAC over several `update` calls is modelled as HMAC of the concatenated
  input, which is what the MAC computes.
- The code pages (`Encoding::OEM`, `Encoding::ANSI`) and `str::to_uppercase`
  are not defined. They are fields of `Text.TextCodec`, so round trips are
  proved on the Unicode path only.
- `OsRng` and `get_ntlm_time` (randomness and the clock) are not modelled.
  The client challenge and the time are parameters of the response
  functions.
- `Display` and `Error` impls: they are formatting only.
- Strings are sequences of UTF-16 code units, which is what
  `encode_utf16` yields. `String::from_utf16` validity is the predicate
  `Text.WellFormedUtf16`.
- `isize` is taken to be 64 bits wide. The `OffsetTooLargeIsize` and
  `LengthTooLargeIsize` paths of `apply_to_slice` cannot arise from 32-bit
  offsets then.
- Panics become preconditions: `for_slice` and
  `NtlmTargetInfoEntry::to_bytes` on data longer than 65535 bytes, and the
  `u32` offset addition in `append_sec_buffer`.
- `Negotiate.Encodable`, `Challenge.Encodable` and `Authenticate.Encodable`
  ask every string field to fit 65535 stored bytes, also when an earlier
  field fails to encode. The source returns that earlier error before it
  reaches the later field's `for_slice` panic, so the model does not cover
  an encoding error followed by an oversized field (inputs over 64 KiB).
- `V1`, `V1NoLm`, `V1Extended`, `V2`, `LmKey`, `NtlmV1Key`, `NtlmV2Key`,
  `DesLong` and `ToMessage` carry no contract of their own. They are
  definitions, and the lemmas and methods in the table state their
  properties.
- SecurityBuffers.SecurityBuffer.ToBytes: its contract states only the
  length. The field layout is stated by `SecurityBuffers.RoundTrip` and
  `SecurityBuffers.TryFrom`.
- Everything outside `src/ntlm.rs` is not part of this model: HTTP, base64,
  TLS, XML and the command-line programs.

## Findings

| source | as written | input that shows it | evidently intended | confidence | as-written member | corrected member |
|---|---|---|---|---|---|---|
| src/ntlm.rs:481-510 | `NtlmChallengeMessage::to_bytes` appends the two context words to the data block, not to the fixed part. It also does not advance the offset past them. The body's fixed part is then 36 bytes, not the 44 the decoder reads, and the context the decoder finds at bytes 20..28 is the target-info buffer. | `EmptyChallenge()`: empty Unicode target name, zero challenge, context (0, 0), no target information, default version. It decodes with context (0, 56). | The context is written inline after the challenge, as [MS-NLMP] section 2.2.1.2 lays out the CHALLENGE_MESSAGE and as `try_from` reads it (src/ntlm.rs:524-528). | not executed | Challenge.ToBytesAsWritten, Challenge.AsWrittenDoesNotRoundTrip, Messages.ChallengeDoesNotRoundTrip | Challenge.ToBytes, Challenge.RoundTrip, Messages.CorrectedRoundTrip |
| src/ntlm.rs:448-450 | `NtlmNegotiateMessage::try_from` refuses bodies shorter than 32 bytes. The encoder's fixed part (src/ntlm.rs:420-440) is 28 bytes: flags, two security buffers and the version. | A Unicode NEGOTIATE message with an empty domain and an empty workstation: it encodes to 28 bytes and decodes to `ItemMinLengthMismatch(32, 28)`. | The minimum is the 28-byte fixed part, so that every body the encoder writes is accepted. | not executed | Negotiate.FromBytes, Negotiate.EmptyStringsDoNotDecode | Negotiate.CorrectedFromBytes, Negotiate.CorrectedRoundTrip |
