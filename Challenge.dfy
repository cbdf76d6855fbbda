/** The CHALLENGE_MESSAGE body (`NtlmChallengeMessage`), section 2.2.1.2 of
    [MS-NLMP]: target-name buffer, flags, the server challenge, the 8-byte
    context (the standard's Reserved field), target-information buffer and
    version, then the target name and the target information. */
module Challenge {
  import opened Wrappers
  import opened Bytes
  import opened Flags
  import opened Errors
  import opened Text
  import opened SecurityBuffers
  import opened OsVersions
  import opened TargetInfo
  import opened Writer

  datatype ChallengeMessage = ChallengeMessage(
    targetName: String,
    flags: NtlmFlags,
    challenge: Bytes8,
    context: (u32, u32),
    targetInformation: seq<TargetInfoEntry>,
    osVersion: OsVersion)

  /** Where the encoder places the data block: magic (8), type (4), target
      name buffer (8), flags (4), challenge (8), context (8), target
      information buffer (8) and the version (8). */
  const DATA_OFFSET: u32 := 56

  /** The fixed part after magic and type, which the decoder demands. */
  const FIXED_LENGTH: nat := 44

  /** The target name fits a 16-bit length in the encoding the flags select,
      and so do the encoded target-information entries, each and together. */
  predicate Encodable(m: ChallengeMessage, codec: TextCodec) {
    && Storable(NtlmStringToBytes(m.flags, m.targetName, codec))
    && AllFit(m.targetInformation)
    && |ListToBytes(m.targetInformation)| <= 0xFFFF
  }

  /** The 44-byte fixed part for a stored name and stored target information. */
  function FixedPart(name: seq<u8>, flags: NtlmFlags, challenge: Bytes8, context: (u32, u32),
                     info: seq<u8>, version: OsVersion): (r: seq<u8>)
    requires |name| <= 0xFFFF && |info| <= 0xFFFF
    ensures |r| == FIXED_LENGTH
  {
    SecurityBuffer(|name|, |name|, DATA_OFFSET).ToBytes()
    + Flags.ToLe(flags) + challenge + U32ToLe(context.0) + U32ToLe(context.1)
    + SecurityBuffer(|info|, |info|, DATA_OFFSET + |name|).ToBytes()
    + version.ToBytes()
  }

  /** The body: the fixed part, then the name, then the target information. */
  function Layout(name: seq<u8>, flags: NtlmFlags, challenge: Bytes8, context: (u32, u32),
                  info: seq<u8>, version: OsVersion): (r: seq<u8>)
    requires |name| <= 0xFFFF && |info| <= 0xFFFF
    ensures |r| == FIXED_LENGTH + |name| + |info|
  {
    FixedPart(name, flags, challenge, context, info, version) + (name + info)
  }

  /** `NtlmChallengeMessage::to_bytes` with the context written in the fixed
      part, where the decoder and section 2.2.1.2 of [MS-NLMP] expect it
      (the source's own encoder is `ToBytesAsWritten`). */
  function ToBytes(m: ChallengeMessage, codec: TextCodec): (r: Result<seq<u8>, StoringError>)
    requires Encodable(m, codec)
    ensures r.Ok? <==> NtlmStringToBytes(m.flags, m.targetName, codec).Ok?
    ensures r.Err? ==> r.error == NtlmStringToBytes(m.flags, m.targetName, codec).error
  {
    var name :- NtlmStringToBytes(m.flags, m.targetName, codec);
    Ok(Layout(name, m.flags, m.challenge, m.context, ListToBytes(m.targetInformation), m.osVersion))
  }

  /** Where each part of an encoded message sits. */
  lemma EncodedParts(m: ChallengeMessage, codec: TextCodec)
    requires Encodable(m, codec) && ToBytes(m, codec).Ok?
    ensures var v := ToBytes(m, codec).value;
            var name := NtlmStringToBytes(m.flags, m.targetName, codec).value;
            var info := ListToBytes(m.targetInformation);
            && |v| == FIXED_LENGTH + |name| + |info|
            && v[8..12] == Flags.ToLe(m.flags)
            && v[12..20] == m.challenge
            && v[20..24] == U32ToLe(m.context.0) && v[24..28] == U32ToLe(m.context.1)
            && v[36..44] == m.osVersion.ToBytes()
            && v[FIXED_LENGTH..] == name + info
  {
    var name := NtlmStringToBytes(m.flags, m.targetName, codec).value;
    var info := ListToBytes(m.targetInformation);
    var f := FixedPart(name, m.flags, m.challenge, m.context, info, m.osVersion);
    assert f[8..12] == Flags.ToLe(m.flags) && f[12..20] == m.challenge;
    assert f[20..24] == U32ToLe(m.context.0) && f[24..28] == U32ToLe(m.context.1);
    assert f[36..44] == m.osVersion.ToBytes();
  }

  /** `NtlmChallengeMessage::try_from` on the bytes after magic and type:
      both buffers are resolved (adjustment -12) before the name is decoded
      and the target information is split into entries. */
  function FromBytes(v: seq<u8>, codec: TextCodec): (r: Result<ChallengeMessage, ParsingError>)
    ensures |v| < FIXED_LENGTH ==> r == Err(ItemMinLengthMismatch(FIXED_LENGTH, |v|))
    ensures r.Ok? ==> |v| >= FIXED_LENGTH && r.value.challenge == v[12..20]
    ensures r.Ok? ==> AllRepresentable(r.value.targetInformation)
  {
    if |v| < FIXED_LENGTH then
      Err(ItemMinLengthMismatch(FIXED_LENGTH, |v|))
    else
      var nameBuffer := SecurityBuffers.TryFrom(v[0..8]).value;
      var flags := FromBits(U32FromLe(v[8..12])).value;
      var challenge: Bytes8 := v[12..20];
      var context := (U32FromLe(v[20..24]), U32FromLe(v[24..28]));
      var infoBuffer := SecurityBuffers.TryFrom(v[28..36]).value;
      var osVersion := if Contains(flags, NEGOTIATE_VERSION) then OsVersions.TryFrom(v[36..44]).value else DEFAULT;
      var nameBytes :- nameBuffer.ApplyToSlice(v, -12);
      var infoBytes :- infoBuffer.ApplyToSlice(v, -12);
      var targetName :- NtlmBytesToString(flags, nameBytes, codec);
      var targetInformation :- ListFromBytes(infoBytes);
      Ok(ChallengeMessage(targetName, flags, challenge, context, targetInformation, osVersion))
  }

  /** The source's decoder, whose loop splits the target information into
      entries one at a time. */
  method Decode(v: seq<u8>, codec: TextCodec) returns (r: Result<ChallengeMessage, ParsingError>)
    ensures r == FromBytes(v, codec)
  {
    if |v| < FIXED_LENGTH {
      return Err(ItemMinLengthMismatch(FIXED_LENGTH, |v|));
    }
    var nameBuffer := SecurityBuffers.TryFrom(v[0..8]).value;
    var flags := FromBits(U32FromLe(v[8..12])).value;
    var challenge: Bytes8 := v[12..20];
    var context := (U32FromLe(v[20..24]), U32FromLe(v[24..28]));
    var infoBuffer := SecurityBuffers.TryFrom(v[28..36]).value;
    var osVersion := if Contains(flags, NEGOTIATE_VERSION) then OsVersions.TryFrom(v[36..44]).value else DEFAULT;
    var nameBytes := nameBuffer.ApplyToSlice(v, -12);
    if nameBytes.Err? {
      return Err(nameBytes.error);
    }
    var infoBytes := infoBuffer.ApplyToSlice(v, -12);
    if infoBytes.Err? {
      return Err(infoBytes.error);
    }
    var targetName := NtlmBytesToString(flags, nameBytes.value, codec);
    if targetName.Err? {
      return Err(targetName.error);
    }
    var targetInformation := ParseList(infoBytes.value);
    if targetInformation.Err? {
      return Err(targetInformation.error);
    }
    r := Ok(ChallengeMessage(targetName.value, flags, challenge, context, targetInformation.value, osVersion));
  }

  /** What the decoder needs to yield `m`: enough bytes, its flags, challenge
      and context, both buffers resolving to stored bytes that decode to its
      name and its entries, and its version where the flag says one is present. */
  lemma DecodesWhen(v: seq<u8>, codec: TextCodec, m: ChallengeMessage, name: seq<u8>, info: seq<u8>)
    requires |v| >= FIXED_LENGTH
    requires FromBits(U32FromLe(v[8..12])).value == m.flags
    requires v[12..20] == m.challenge
    requires U32FromLe(v[20..24]) == m.context.0 && U32FromLe(v[24..28]) == m.context.1
    requires SecurityBuffers.TryFrom(v[0..8]).value.ApplyToSlice(v, -12) == Ok(name)
    requires SecurityBuffers.TryFrom(v[28..36]).value.ApplyToSlice(v, -12) == Ok(info)
    requires NtlmBytesToString(m.flags, name, codec) == Ok(m.targetName)
    requires ListFromBytes(info) == Ok(m.targetInformation)
    requires Contains(m.flags, NEGOTIATE_VERSION) ==> OsVersions.TryFrom(v[36..44]).value == m.osVersion
    requires !Contains(m.flags, NEGOTIATE_VERSION) ==> m.osVersion == DEFAULT
    ensures FromBytes(v, codec) == Ok(m)
  {
  }

  /** The fixed part of a layout parses back into its parts. */
  lemma LayoutFixedPart(name: seq<u8>, flags: NtlmFlags, challenge: Bytes8, context: (u32, u32),
                        info: seq<u8>, version: OsVersion)
    requires |name| <= 0xFFFF && |info| <= 0xFFFF
    ensures var v := Layout(name, flags, challenge, context, info, version);
            && SecurityBuffers.TryFrom(v[0..8]) == Ok(SecurityBuffer(|name|, |name|, DATA_OFFSET))
            && FromBits(U32FromLe(v[8..12])).value == flags
            && v[12..20] == challenge
            && U32FromLe(v[20..24]) == context.0 && U32FromLe(v[24..28]) == context.1
            && SecurityBuffers.TryFrom(v[28..36]) == Ok(SecurityBuffer(|info|, |info|, DATA_OFFSET + |name|))
            && OsVersions.TryFrom(v[36..44]) == Ok(version)
  {
    var v := Layout(name, flags, challenge, context, info, version);
    var f := FixedPart(name, flags, challenge, context, info, version);
    var nameBuffer := SecurityBuffer(|name|, |name|, DATA_OFFSET);
    var infoBuffer := SecurityBuffer(|info|, |info|, DATA_OFFSET + |name|);
    assert v[..FIXED_LENGTH] == f;
    assert v[0..8] == f[0..8] == nameBuffer.ToBytes();
    assert v[8..12] == f[8..12] == Flags.ToLe(flags);
    assert v[12..20] == f[12..20] == challenge;
    assert v[20..24] == f[20..24] == U32ToLe(context.0);
    assert v[24..28] == f[24..28] == U32ToLe(context.1);
    assert v[28..36] == f[28..36] == infoBuffer.ToBytes();
    assert v[36..44] == f[36..44] == version.ToBytes();
    SecurityBuffers.RoundTrip(nameBuffer);
    SecurityBuffers.RoundTrip(infoBuffer);
    U32RoundTrip(context.0);
    U32RoundTrip(context.1);
    OsVersions.RoundTrip(version);
  }

  /** Both buffers of a layout resolve, with the adjustment -12, to the stored bytes. */
  lemma LayoutSlices(name: seq<u8>, flags: NtlmFlags, challenge: Bytes8, context: (u32, u32),
                     info: seq<u8>, version: OsVersion)
    requires |name| <= 0xFFFF && |info| <= 0xFFFF
    ensures var v := Layout(name, flags, challenge, context, info, version);
            && SecurityBuffer(|name|, |name|, DATA_OFFSET).ApplyToSlice(v, -12) == Ok(name)
            && SecurityBuffer(|info|, |info|, DATA_OFFSET + |name|).ApplyToSlice(v, -12) == Ok(info)
  {
    var f := FixedPart(name, flags, challenge, context, info, version);
    var fields := [name, info];
    assert fields[..0] == [] && fields[..1] == [name];
    assert Concat(fields[..1]) == name by {
      assert Concat(fields[..1]) == Concat([]) + name;
    }
    assert Concat(fields) == name + info by {
      assert fields[..|fields| - 1] == [name];
    }
    FieldResolves(f, fields, 0);
    FieldResolves(f, fields, 1);
  }

  /** The hypotheses of the round trip: Unicode, a well-formed name, entries
      the decoder reads back unchanged, both stored fields within a 16-bit
      length, and a version that is either announced by its flag or the
      all-zero default. */
  predicate RoundTrips(m: ChallengeMessage) {
    && Contains(m.flags, NEGOTIATE_UNICODE)
    && WellFormedUtf16(m.targetName)
    && 2 * |m.targetName| <= 0xFFFF
    && AllRepresentable(m.targetInformation)
    && |ListToBytes(m.targetInformation)| <= 0xFFFF
    && (Contains(m.flags, NEGOTIATE_VERSION) || m.osVersion == DEFAULT)
  }

  /** The decoder reads a Unicode layout back into the message. */
  lemma LayoutDecodes(m: ChallengeMessage, codec: TextCodec)
    requires RoundTrips(m)
    ensures FromBytes(Layout(Utf16LeBytes(m.targetName), m.flags, m.challenge, m.context,
                             ListToBytes(m.targetInformation), m.osVersion), codec) == Ok(m)
  {
    var name, info := Utf16LeBytes(m.targetName), ListToBytes(m.targetInformation);
    LayoutFixedPart(name, m.flags, m.challenge, m.context, info, m.osVersion);
    LayoutSlices(name, m.flags, m.challenge, m.context, info, m.osVersion);
    Utf16RoundTrip(m.targetName);
    ListRoundTrip(m.targetInformation);
    DecodesWhen(Layout(name, m.flags, m.challenge, m.context, info, m.osVersion), codec, m, name, info);
  }

  /** Under Unicode, a message with a well-formed name and representable
      entries decodes to itself, provided the version is either announced by
      its flag or the all-zero default. */
  lemma RoundTrip(m: ChallengeMessage, codec: TextCodec)
    requires RoundTrips(m)
    ensures Encodable(m, codec) && ToBytes(m, codec).Ok?
    ensures FromBytes(ToBytes(m, codec).value, codec) == Ok(m)
  {
    LayoutDecodes(m, codec);
  }

  /** The encoder with the context in the fixed part, built the way the
      source builds messages. */
  method Encode(m: ChallengeMessage, codec: TextCodec) returns (r: Result<seq<u8>, StoringError>)
    requires Encodable(m, codec)
    ensures r == ToBytes(m, codec)
  {
    var writer := new MessageWriter(DATA_OFFSET);
    var stored := writer.AppendSecBufferString(m.flags, m.targetName, codec);
    if stored.Err? {
      return Err(stored.error);
    }
    ghost var name := NtlmStringToBytes(m.flags, m.targetName, codec).value;
    assert writer.packet == SecurityBuffer(|name|, |name|, DATA_OFFSET).ToBytes();
    assert writer.dataBlock == name;
    writer.AppendFixed(Flags.ToLe(m.flags));
    writer.AppendFixed(m.challenge);
    writer.AppendFixed(U32ToLe(m.context.0));
    writer.AppendFixed(U32ToLe(m.context.1));
    var info := ListToBytes(m.targetInformation);
    writer.AppendSecBuffer(info);
    writer.AppendFixed(m.osVersion.ToBytes());
    var bytes := writer.Finish();
    r := Ok(bytes);
  }

  // The encoder as the source writes it.

  /** `NtlmChallengeMessage::to_bytes` as written: the context goes to the
      data block, between the name and the target information, without
      moving the running offset, so the fixed part is 36 bytes while the
      buffers still count from 56. */
  function ToBytesAsWritten(m: ChallengeMessage, codec: TextCodec): (r: Result<seq<u8>, StoringError>)
    requires Encodable(m, codec)
    ensures r.Ok? <==> NtlmStringToBytes(m.flags, m.targetName, codec).Ok?
  {
    var name :- NtlmStringToBytes(m.flags, m.targetName, codec);
    var info := ListToBytes(m.targetInformation);
    Ok(SecurityBuffer(|name|, |name|, DATA_OFFSET).ToBytes()
       + Flags.ToLe(m.flags) + m.challenge
       + SecurityBuffer(|info|, |info|, DATA_OFFSET + |name|).ToBytes()
       + m.osVersion.ToBytes()
       + (name + (U32ToLe(m.context.0) + U32ToLe(m.context.1)) + info))
  }

  /** The source's encoder step by step. */
  method EncodeAsWritten(m: ChallengeMessage, codec: TextCodec) returns (r: Result<seq<u8>, StoringError>)
    requires Encodable(m, codec)
    ensures r == ToBytesAsWritten(m, codec)
  {
    var writer := new MessageWriter(DATA_OFFSET);
    var stored := writer.AppendSecBufferString(m.flags, m.targetName, codec);
    if stored.Err? {
      return Err(stored.error);
    }
    ghost var name := NtlmStringToBytes(m.flags, m.targetName, codec).value;
    assert writer.packet == SecurityBuffer(|name|, |name|, DATA_OFFSET).ToBytes();
    assert writer.dataBlock == name;
    writer.AppendFixed(Flags.ToLe(m.flags));
    writer.AppendFixed(m.challenge);
    writer.AppendData(U32ToLe(m.context.0));
    writer.AppendData(U32ToLe(m.context.1));
    var info := ListToBytes(m.targetInformation);
    writer.AppendSecBuffer(info);
    writer.AppendFixed(m.osVersion.ToBytes());
    ghost var data := writer.dataBlock;
    assert data == name + (U32ToLe(m.context.0) + U32ToLe(m.context.1)) + info;
    var bytes := writer.Finish();
    r := Ok(bytes);
  }

  /** As written, the encoded body is 36 fixed bytes, then the name, the
      8 context bytes and the target information: the data starts 48 bytes
      into the message, not at the 56 that the buffers record. */
  lemma AsWrittenLayout(m: ChallengeMessage, codec: TextCodec)
    requires Encodable(m, codec) && ToBytesAsWritten(m, codec).Ok?
    ensures var v := ToBytesAsWritten(m, codec).value;
            var name := NtlmStringToBytes(m.flags, m.targetName, codec).value;
            var info := ListToBytes(m.targetInformation);
            && |v| == 36 + |name| + 8 + |info|
            && v[0..8] == SecurityBuffer(|name|, |name|, DATA_OFFSET).ToBytes()
            && v[36..36 + |name|] == name
  {
    var v := ToBytesAsWritten(m, codec).value;
    var name := NtlmStringToBytes(m.flags, m.targetName, codec).value;
    assert v[36..] == name + (U32ToLe(m.context.0) + U32ToLe(m.context.1)) + ListToBytes(m.targetInformation);
  }

  /** The message of the counterexample below. */
  function EmptyChallenge(): ChallengeMessage {
    ChallengeMessage([], NEGOTIATE_UNICODE, Zeros(8), (0, 0), [], DEFAULT)
  }

  /** What the source's encoder writes for `EmptyChallenge()`: where the
      decoder looks for the context it finds the target-information buffer
      (length 0, offset 56), and where it looks for that buffer it finds the
      version's zero bytes. */
  lemma AsWrittenEmptyChallenge(codec: TextCodec)
    ensures Encodable(EmptyChallenge(), codec) && ToBytesAsWritten(EmptyChallenge(), codec).Ok?
    ensures var v := ToBytesAsWritten(EmptyChallenge(), codec).value;
            && |v| == FIXED_LENGTH
            && v[0..8] == SecurityBuffer(0, 0, DATA_OFFSET).ToBytes()
            && v[8..12] == Flags.ToLe(NEGOTIATE_UNICODE)
            && v[12..20] == Zeros(8)
            && v[20..28] == SecurityBuffer(0, 0, DATA_OFFSET).ToBytes()
            && v[28..36] == SecurityBuffer(0, 0, 0).ToBytes()
  {
    var m := EmptyChallenge();
    var v := ToBytesAsWritten(m, codec).value;
    var emptyBuffer := SecurityBuffer(0, 0, DATA_OFFSET);
    assert Utf16LeBytes([]) == [];
    assert ListToBytes([]) == [];
    assert v == emptyBuffer.ToBytes() + Flags.ToLe(NEGOTIATE_UNICODE) + Zeros(8)
                + emptyBuffer.ToBytes() + DEFAULT.ToBytes() + ([] + (U32ToLe(0) + U32ToLe(0)) + []);
    assert v[28..36] == DEFAULT.ToBytes() == Zeros(8);
    assert SecurityBuffer(0, 0, 0).ToBytes() == Zeros(8);
  }

  /** The bytes of an empty buffer read as two little-endian words: zero, then the offset. */
  lemma EmptyBufferHalves(offset: u32)
    ensures SecurityBuffer(0, 0, offset).ToBytes()[..4] == U32ToLe(0)
    ensures SecurityBuffer(0, 0, offset).ToBytes()[4..] == U32ToLe(offset)
  {
    assert U32ToLe(0) == U16ToLe(0) + U16ToLe(0);
  }

  /** A message the source's encoder and decoder do not agree on: an empty
      Unicode name, no target information, a zero context. The decoder gets
      the context (0, 56) back instead of (0, 0). */
  lemma AsWrittenDoesNotRoundTrip(codec: TextCodec)
    ensures var m := EmptyChallenge();
            && Encodable(m, codec) && ToBytesAsWritten(m, codec).Ok?
            && FromBytes(ToBytesAsWritten(m, codec).value, codec) == Ok(m.(context := (0, 56)))
            && FromBytes(ToBytesAsWritten(m, codec).value, codec) != Ok(m)
  {
    var m := EmptyChallenge();
    AsWrittenEmptyChallenge(codec);
    var v := ToBytesAsWritten(m, codec).value;
    EmptyBufferHalves(DATA_OFFSET);
    assert v[20..24] == U32ToLe(0) && v[24..28] == U32ToLe(DATA_OFFSET);
    SecurityBuffers.RoundTrip(SecurityBuffer(0, 0, DATA_OFFSET));
    SecurityBuffers.RoundTrip(SecurityBuffer(0, 0, 0));
    U32RoundTrip(0);
    U32RoundTrip(DATA_OFFSET);
    DecodesWhen(v, codec, m.(context := (0, 56)), [], []);
  }
}
