/** The NEGOTIATE_MESSAGE body (`NtlmNegotiateMessage`), section 2.2.1.1 of
    [MS-NLMP]: everything after the 8-byte signature and the 4-byte type. */
module Negotiate {
  import opened Wrappers
  import opened Bytes
  import opened Flags
  import opened Errors
  import opened Text
  import opened SecurityBuffers
  import opened OsVersions
  import opened Writer

  datatype NegotiateMessage = NegotiateMessage(
    flags: NtlmFlags,
    suppliedDomain: String,
    suppliedWorkstation: String,
    osVersion: OsVersion)

  /** Where the encoder places the data block: magic (8), type (4), flags (4),
      two security buffers (16) and the version (8). */
  const DATA_OFFSET: u32 := 40

  /** The fixed part the encoder always writes: flags, two buffers, version. */
  const FIXED_LENGTH: nat := 28

  /** The body length the decoder insists on, 4 more than the fixed part. */
  const MIN_BODY_LENGTH: nat := 32

  /** The message's strings are short enough for 16-bit buffer lengths in the
      encoding the flags select (the source panics otherwise). */
  predicate Encodable(m: NegotiateMessage, codec: TextCodec) {
    && Storable(NtlmStringToBytes(m.flags, m.suppliedDomain, codec))
    && Storable(NtlmStringToBytes(m.flags, m.suppliedWorkstation, codec))
  }

  /** The body for stored domain bytes `d` and workstation bytes `w`. */
  function Layout(flags: NtlmFlags, d: seq<u8>, w: seq<u8>, version: OsVersion): (r: seq<u8>)
    requires |d| <= 0xFFFF && |w| <= 0xFFFF
    ensures |r| == 28 + |d| + |w|
  {
    Flags.ToLe(flags)
    + SecurityBuffer(|d|, |d|, DATA_OFFSET).ToBytes()
    + SecurityBuffer(|w|, |w|, DATA_OFFSET + |d|).ToBytes()
    + version.ToBytes()
    + d + w
  }

  /** `NtlmNegotiateMessage::to_bytes`. The 8 version bytes are written
      whatever the flags say; the two strings follow the 28-byte fixed part. */
  function ToBytes(m: NegotiateMessage, codec: TextCodec): (r: Result<seq<u8>, StoringError>)
    requires Encodable(m, codec)
    ensures r.Ok? <==>
              NtlmStringToBytes(m.flags, m.suppliedDomain, codec).Ok?
              && NtlmStringToBytes(m.flags, m.suppliedWorkstation, codec).Ok?
    ensures r.Ok? ==>
              var d, w := NtlmStringToBytes(m.flags, m.suppliedDomain, codec).value,
                          NtlmStringToBytes(m.flags, m.suppliedWorkstation, codec).value;
              && |r.value| == 28 + |d| + |w|
              && r.value[20..28] == m.osVersion.ToBytes()
              && r.value[28..] == d + w
  {
    var d :- NtlmStringToBytes(m.flags, m.suppliedDomain, codec);
    var w :- NtlmStringToBytes(m.flags, m.suppliedWorkstation, codec);
    Ok(Layout(m.flags, d, w, m.osVersion))
  }

  /** The domain and workstation buffers of a body of at least 20 bytes. */
  function DomainBuffer(v: seq<u8>): SecurityBuffer
    requires |v| >= 20
  {
    SecurityBuffers.TryFrom(v[4..12]).value
  }

  function WorkstationBuffer(v: seq<u8>): SecurityBuffer
    requires |v| >= 20
  {
    SecurityBuffers.TryFrom(v[12..20]).value
  }

  /** `NtlmNegotiateMessage::try_from` on the bytes after magic and type,
      refusing bodies shorter than `minLength`. Buffer offsets count from
      the start of the whole message, so both are resolved with an
      adjustment of -12. */
  function Parse(v: seq<u8>, codec: TextCodec, minLength: nat): (r: Result<NegotiateMessage, ParsingError>)
    requires minLength >= FIXED_LENGTH
    ensures |v| < minLength ==> r == Err(ItemMinLengthMismatch(minLength, |v|))
    ensures r.Ok? ==> |v| >= minLength
  {
    if |v| < minLength then
      Err(ItemMinLengthMismatch(minLength, |v|))
    else
      var flags := FromBits(U32FromLe(v[0..4])).value;
      var domainBuffer := DomainBuffer(v);
      var workstationBuffer := WorkstationBuffer(v);
      var osVersion := if Contains(flags, NEGOTIATE_VERSION) then OsVersions.TryFrom(v[20..28]).value else DEFAULT;
      var domainBytes :- domainBuffer.ApplyToSlice(v, -12);
      var workstationBytes :- workstationBuffer.ApplyToSlice(v, -12);
      var domain :- NtlmBytesToString(flags, domainBytes, codec);
      var workstation :- NtlmBytesToString(flags, workstationBytes, codec);
      Ok(NegotiateMessage(flags, domain, workstation, osVersion))
  }

  /** The decoder as the source writes it, with its 32-byte minimum. */
  function FromBytes(v: seq<u8>, codec: TextCodec): (r: Result<NegotiateMessage, ParsingError>)
    ensures |v| < MIN_BODY_LENGTH ==> r == Err(ItemMinLengthMismatch(MIN_BODY_LENGTH, |v|))
    ensures r.Ok? ==> |v| >= MIN_BODY_LENGTH
  {
    Parse(v, codec, MIN_BODY_LENGTH)
  }

  /** The decoder with the minimum the encoder's fixed part calls for. */
  function CorrectedFromBytes(v: seq<u8>, codec: TextCodec): (r: Result<NegotiateMessage, ParsingError>)
    ensures |v| < FIXED_LENGTH ==> r == Err(ItemMinLengthMismatch(FIXED_LENGTH, |v|))
    ensures r.Ok? ==> |v| >= FIXED_LENGTH
  {
    Parse(v, codec, FIXED_LENGTH)
  }

  /** The version is read only when NEGOTIATE_VERSION is set and is
      otherwise the all-zero default. */
  lemma DecodedVersion(v: seq<u8>, codec: TextCodec)
    requires FromBytes(v, codec).Ok?
    ensures var m := FromBytes(v, codec).value;
            && (!Contains(m.flags, NEGOTIATE_VERSION) ==> m.osVersion == DEFAULT)
            && (Contains(m.flags, NEGOTIATE_VERSION) ==> m.osVersion.ToBytes() == v[20..28])
  {
  }

  /** Under Unicode, the decoded strings are exactly the bytes their buffers
      designate once shifted by -12, read as UTF-16LE. */
  lemma DecodedStrings(v: seq<u8>, codec: TextCodec)
    requires FromBytes(v, codec).Ok?
    requires Contains(FromBytes(v, codec).value.flags, NEGOTIATE_UNICODE)
    ensures var m := FromBytes(v, codec).value;
            && DomainBuffer(v).ApplyToSlice(v, -12).Ok?
            && Utf16LeBytes(m.suppliedDomain) == DomainBuffer(v).ApplyToSlice(v, -12).value
            && WorkstationBuffer(v).ApplyToSlice(v, -12).Ok?
            && Utf16LeBytes(m.suppliedWorkstation) == WorkstationBuffer(v).ApplyToSlice(v, -12).value
  {
  }

  /** With neither NEGOTIATE_UNICODE nor NEGOTIATE_OEM set, a body whose
      buffers resolve is refused rather than decoded in a guessed encoding. */
  lemma NeitherEncodingRefused(v: seq<u8>, codec: TextCodec)
    requires |v| >= MIN_BODY_LENGTH
    requires !Contains(FromBits(U32FromLe(v[0..4])).value, NEGOTIATE_UNICODE)
    requires !Contains(FromBits(U32FromLe(v[0..4])).value, NEGOTIATE_OEM)
    requires DomainBuffer(v).ApplyToSlice(v, -12).Ok? && WorkstationBuffer(v).ApplyToSlice(v, -12).Ok?
    ensures FromBytes(v, codec) == Err(ParsingError.NeitherUnicodeNorOem)
  {
  }

  /** Where each part of a body built by `Layout` sits. */
  lemma LayoutParts(flags: NtlmFlags, d: seq<u8>, w: seq<u8>, version: OsVersion)
    requires |d| <= 0xFFFF && |w| <= 0xFFFF
    ensures var v := Layout(flags, d, w, version);
            && v[0..4] == Flags.ToLe(flags)
            && v[4..12] == SecurityBuffer(|d|, |d|, DATA_OFFSET).ToBytes()
            && v[12..20] == SecurityBuffer(|w|, |w|, DATA_OFFSET + |d|).ToBytes()
            && v[20..28] == version.ToBytes()
            && v[28..28 + |d|] == d
            && v[28 + |d|..] == w
  {
    var f, a, b, c := Flags.ToLe(flags), SecurityBuffer(|d|, |d|, DATA_OFFSET).ToBytes(),
                      SecurityBuffer(|w|, |w|, DATA_OFFSET + |d|).ToBytes(), version.ToBytes();
    var fixed := f + a + b + c;
    assert fixed[0..4] == f && fixed[4..12] == a && fixed[12..20] == b && fixed[20..28] == c;
    var v := fixed + d + w;
    assert v[..28] == fixed;
  }

  /** What the corrected decoder needs to read a message back: Unicode,
      well-formed strings that fit 16-bit lengths, and a version that is
      either announced by its flag or the all-zero default. */
  predicate Representable(m: NegotiateMessage) {
    && Contains(m.flags, NEGOTIATE_UNICODE)
    && WellFormedUtf16(m.suppliedDomain) && WellFormedUtf16(m.suppliedWorkstation)
    && 2 * |m.suppliedDomain| <= 0xFFFF && 2 * |m.suppliedWorkstation| <= 0xFFFF
    && (Contains(m.flags, NEGOTIATE_VERSION) || m.osVersion == DEFAULT)
  }

  /** The hypotheses of the round trip through the source's decoder: a
      representable message whose stored strings total at least 4 bytes. */
  predicate RoundTrips(m: NegotiateMessage) {
    Representable(m) && |m.suppliedDomain| + |m.suppliedWorkstation| >= 2
  }

  /** Under Unicode the encoder lays out the UTF-16LE bytes of both strings. */
  lemma UnicodeLayout(m: NegotiateMessage, codec: TextCodec)
    requires Representable(m)
    ensures Encodable(m, codec)
    ensures ToBytes(m, codec)
            == Ok(Layout(m.flags, Utf16LeBytes(m.suppliedDomain), Utf16LeBytes(m.suppliedWorkstation), m.osVersion))
  {
  }

  /** What the decoder needs to yield `m`: enough bytes, its flag word, both
      buffers resolving to stored bytes that decode to its strings, and its
      version where the flag says one is present. */
  lemma DecodesWhen(v: seq<u8>, codec: TextCodec, minLength: nat, m: NegotiateMessage, d: seq<u8>, w: seq<u8>)
    requires FIXED_LENGTH <= minLength <= |v|
    requires FromBits(U32FromLe(v[0..4])).value == m.flags
    requires DomainBuffer(v).ApplyToSlice(v, -12) == Ok(d)
    requires WorkstationBuffer(v).ApplyToSlice(v, -12) == Ok(w)
    requires NtlmBytesToString(m.flags, d, codec) == Ok(m.suppliedDomain)
    requires NtlmBytesToString(m.flags, w, codec) == Ok(m.suppliedWorkstation)
    requires Contains(m.flags, NEGOTIATE_VERSION) ==> OsVersions.TryFrom(v[20..28]).value == m.osVersion
    requires !Contains(m.flags, NEGOTIATE_VERSION) ==> m.osVersion == DEFAULT
    ensures Parse(v, codec, minLength) == Ok(m)
  {
  }

  /** The fixed part of a layout parses back into its flags, buffers and version. */
  lemma LayoutFixedPart(flags: NtlmFlags, d: seq<u8>, w: seq<u8>, version: OsVersion)
    requires |d| <= 0xFFFF && |w| <= 0xFFFF
    ensures var v := Layout(flags, d, w, version);
            && FromBits(U32FromLe(v[0..4])).value == flags
            && DomainBuffer(v) == SecurityBuffer(|d|, |d|, DATA_OFFSET)
            && WorkstationBuffer(v) == SecurityBuffer(|w|, |w|, DATA_OFFSET + |d|)
            && OsVersions.TryFrom(v[20..28]) == Ok(version)
  {
    LayoutParts(flags, d, w, version);
    SecurityBuffers.RoundTrip(SecurityBuffer(|d|, |d|, DATA_OFFSET));
    SecurityBuffers.RoundTrip(SecurityBuffer(|w|, |w|, DATA_OFFSET + |d|));
    OsVersions.RoundTrip(version);
  }

  /** Both buffers of a layout resolve, with the adjustment -12, to the stored bytes. */
  lemma LayoutSlices(flags: NtlmFlags, d: seq<u8>, w: seq<u8>, version: OsVersion)
    requires |d| <= 0xFFFF && |w| <= 0xFFFF
    ensures var v := Layout(flags, d, w, version);
            && SecurityBuffer(|d|, |d|, DATA_OFFSET).ApplyToSlice(v, -12) == Ok(d)
            && SecurityBuffer(|w|, |w|, DATA_OFFSET + |d|).ApplyToSlice(v, -12) == Ok(w)
  {
    LayoutParts(flags, d, w, version);
    var v := Layout(flags, d, w, version);
    assert v[28 + |d|..28 + |d| + |w|] == w;
  }

  /** The decoder reads a Unicode layout back into the message, whenever the
      layout is at least as long as the minimum it insists on. */
  lemma LayoutDecodes(m: NegotiateMessage, codec: TextCodec, minLength: nat)
    requires Representable(m)
    requires FIXED_LENGTH <= minLength <= FIXED_LENGTH + 2 * |m.suppliedDomain| + 2 * |m.suppliedWorkstation|
    ensures Parse(Layout(m.flags, Utf16LeBytes(m.suppliedDomain), Utf16LeBytes(m.suppliedWorkstation), m.osVersion), codec, minLength)
            == Ok(m)
  {
    var d, w := Utf16LeBytes(m.suppliedDomain), Utf16LeBytes(m.suppliedWorkstation);
    LayoutFixedPart(m.flags, d, w, m.osVersion);
    LayoutSlices(m.flags, d, w, m.osVersion);
    Utf16RoundTrip(m.suppliedDomain);
    Utf16RoundTrip(m.suppliedWorkstation);
    DecodesWhen(Layout(m.flags, d, w, m.osVersion), codec, minLength, m, d, w);
  }

  /** Under Unicode, a message whose strings are well-formed and whose stored
      strings total at least 4 bytes decodes to itself, provided the version
      is either announced by its flag or the all-zero default. */
  lemma RoundTrip(m: NegotiateMessage, codec: TextCodec)
    requires RoundTrips(m)
    ensures Encodable(m, codec) && ToBytes(m, codec).Ok?
    ensures FromBytes(ToBytes(m, codec).value, codec) == Ok(m)
  {
    UnicodeLayout(m, codec);
    LayoutDecodes(m, codec, MIN_BODY_LENGTH);
  }

  /** With the corrected minimum every representable message decodes to
      itself, the one with two empty strings included. */
  lemma CorrectedRoundTrip(m: NegotiateMessage, codec: TextCodec)
    requires Representable(m)
    ensures Encodable(m, codec) && ToBytes(m, codec).Ok?
    ensures CorrectedFromBytes(ToBytes(m, codec).value, codec) == Ok(m)
  {
    UnicodeLayout(m, codec);
    LayoutDecodes(m, codec, FIXED_LENGTH);
  }

  /** The decoder's 32-byte minimum exceeds the 28-byte fixed part, so a
      message whose two strings are both empty encodes but does not decode. */
  lemma EmptyStringsDoNotDecode(flags: NtlmFlags, version: OsVersion, codec: TextCodec)
    requires Contains(flags, NEGOTIATE_UNICODE)
    ensures var m := NegotiateMessage(flags, [], [], version);
            && Encodable(m, codec) && ToBytes(m, codec).Ok?
            && |ToBytes(m, codec).value| == 28
            && FromBytes(ToBytes(m, codec).value, codec) == Err(ItemMinLengthMismatch(32, 28))
  {
  }

  /** `NtlmNegotiateMessage::to_bytes` as the source writes it: flags, then
      each string through `append_sec_buffer_string`, then the version, then
      the data block. */
  method Encode(m: NegotiateMessage, codec: TextCodec) returns (r: Result<seq<u8>, StoringError>)
    requires Encodable(m, codec)
    ensures r == ToBytes(m, codec)
  {
    var writer := new MessageWriter(DATA_OFFSET);
    writer.AppendFixed(Flags.ToLe(m.flags));
    assert writer.packet == Flags.ToLe(m.flags);
    var stored := writer.AppendSecBufferString(m.flags, m.suppliedDomain, codec);
    if stored.Err? {
      return Err(stored.error);
    }
    ghost var d := NtlmStringToBytes(m.flags, m.suppliedDomain, codec).value;
    assert writer.dataBlock == d;
    stored := writer.AppendSecBufferString(m.flags, m.suppliedWorkstation, codec);
    if stored.Err? {
      return Err(stored.error);
    }
    ghost var w := NtlmStringToBytes(m.flags, m.suppliedWorkstation, codec).value;
    writer.AppendFixed(m.osVersion.ToBytes());
    var bytes := writer.Finish();
    assert bytes == Layout(m.flags, d, w, m.osVersion);
    EncodedAs(m, codec, d, w);
    r := Ok(bytes);
  }

  lemma EncodedAs(m: NegotiateMessage, codec: TextCodec, d: seq<u8>, w: seq<u8>)
    requires Encodable(m, codec)
    requires NtlmStringToBytes(m.flags, m.suppliedDomain, codec) == Ok(d)
    requires NtlmStringToBytes(m.flags, m.suppliedWorkstation, codec) == Ok(w)
    ensures |d| <= 0xFFFF && |w| <= 0xFFFF
    ensures ToBytes(m, codec) == Ok(Layout(m.flags, d, w, m.osVersion))
  {
  }
}
