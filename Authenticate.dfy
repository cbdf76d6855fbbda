/** The AUTHENTICATE_MESSAGE body (`NtlmAuthenticateMessage`), section 2.2.1.3
    of [MS-NLMP]: six security buffers, the flags and the version, then the
    six fields' data in the same order. */
module Authenticate {
  import opened Wrappers
  import opened Bytes
  import opened Flags
  import opened Errors
  import opened Text
  import opened SecurityBuffers
  import opened OsVersions
  import opened Writer

  datatype AuthenticateMessage = AuthenticateMessage(
    lmResponse: seq<u8>,
    ntlmResponse: seq<u8>,
    domainName: String,
    userName: String,
    workstationName: String,
    sessionKey: seq<u8>,
    flags: NtlmFlags,
    osVersion: OsVersion)

  /** Where the encoder places the data block: magic (8), type (4), six
      security buffers (48), flags (4) and the version (8). */
  const DATA_OFFSET: u32 := 72

  /** The fixed part after magic and type, which the decoder demands. */
  const FIXED_LENGTH: nat := 60

  /** Every field fits a 16-bit buffer length in the encoding the flags select. */
  predicate Encodable(m: AuthenticateMessage, codec: TextCodec) {
    && |m.lmResponse| <= 0xFFFF && |m.ntlmResponse| <= 0xFFFF && |m.sessionKey| <= 0xFFFF
    && Storable(NtlmStringToBytes(m.flags, m.domainName, codec))
    && Storable(NtlmStringToBytes(m.flags, m.userName, codec))
    && Storable(NtlmStringToBytes(m.flags, m.workstationName, codec))
  }

  /** The six stored fields of a message, in wire order. */
  datatype Stored = Stored(lm: seq<u8>, nt: seq<u8>, domain: seq<u8>, user: seq<u8>, workstation: seq<u8>, key: seq<u8>) {
    function Fields(): (r: seq<seq<u8>>)
      ensures |r| == 6
    {
      [lm, nt, domain, user, workstation, key]
    }

    /** Every field fits a 16-bit buffer length. */
    predicate Fits() {
      |lm| <= 0xFFFF && |nt| <= 0xFFFF && |domain| <= 0xFFFF
      && |user| <= 0xFFFF && |workstation| <= 0xFFFF && |key| <= 0xFFFF
    }

    lemma FieldsAreShort(i: nat)
      requires Fits() && i <= 6
      ensures AllShort(Fields()[..i])
    {
    }

    /** The i-th security buffer: the field's length, at the offset where
        the encoder places it. */
    function Buffer(i: nat): (r: SecurityBuffer)
      requires Fits() && i < 6
      ensures r.length as int == |Fields()[i]|
      ensures r.offset as int == DATA_OFFSET as int + |Concat(Fields()[..i])|
    {
      FieldsAreShort(i);
      ConcatBound(Fields()[..i]);
      SecurityBuffer(|Fields()[i]|, |Fields()[i]|, DATA_OFFSET + |Concat(Fields()[..i])|)
    }

    /** The data block written so far after each field. */
    lemma Prefixes()
      ensures Concat(Fields()[..0]) == []
      ensures Concat(Fields()[..1]) == lm
      ensures Concat(Fields()[..2]) == lm + nt
      ensures Concat(Fields()[..3]) == lm + nt + domain
      ensures Concat(Fields()[..4]) == lm + nt + domain + user
      ensures Concat(Fields()[..5]) == lm + nt + domain + user + workstation
      ensures Concat(Fields()) == lm + nt + domain + user + workstation + key
    {
      var fs := Fields();
      assert fs[..0] == [];
      assert fs[..1][..0] == fs[..0];
      assert fs[..2][..1] == fs[..1];
      assert fs[..3][..2] == fs[..2];
      assert fs[..4][..3] == fs[..3];
      assert fs[..5][..4] == fs[..4];
      assert fs[..5] == fs[..|fs| - 1];
    }

    /** Each buffer's offset is the data offset plus the lengths of the
        fields before it. */
    lemma BufferOffsets()
      requires Fits()
      ensures Buffer(0) == SecurityBuffer(|lm|, |lm|, DATA_OFFSET)
      ensures Buffer(1) == SecurityBuffer(|nt|, |nt|, DATA_OFFSET + |lm|)
      ensures Buffer(2) == SecurityBuffer(|domain|, |domain|, DATA_OFFSET + |lm| + |nt|)
      ensures Buffer(3) == SecurityBuffer(|user|, |user|, DATA_OFFSET + |lm| + |nt| + |domain|)
      ensures Buffer(4) == SecurityBuffer(|workstation|, |workstation|, DATA_OFFSET + |lm| + |nt| + |domain| + |user|)
      ensures Buffer(5) == SecurityBuffer(|key|, |key|, DATA_OFFSET + |lm| + |nt| + |domain| + |user| + |workstation|)
    {
      Prefixes();
    }
  }

  /** The 60-byte fixed part: six buffers, flags, version. */
  function FixedPart(s: Stored, flags: NtlmFlags, version: OsVersion): (r: seq<u8>)
    requires s.Fits()
    ensures |r| == FIXED_LENGTH
  {
    s.Buffer(0).ToBytes() + s.Buffer(1).ToBytes() + s.Buffer(2).ToBytes()
    + s.Buffer(3).ToBytes() + s.Buffer(4).ToBytes() + s.Buffer(5).ToBytes()
    + Flags.ToLe(flags) + version.ToBytes()
  }

  /** The fixed part spelled out buffer by buffer, as the encoder appends
      it, with the running offsets `o1` to `o5` it keeps. */
  lemma FixedPartIs(s: Stored, flags: NtlmFlags, version: OsVersion, o1: u32, o2: u32, o3: u32, o4: u32, o5: u32)
    requires s.Fits()
    requires o1 as int == DATA_OFFSET as int + |s.lm| && o2 as int == o1 as int + |s.nt|
    requires o3 as int == o2 as int + |s.domain| && o4 as int == o3 as int + |s.user|
    requires o5 as int == o4 as int + |s.workstation|
    ensures FixedPart(s, flags, version)
            == SecurityBuffer(|s.lm|, |s.lm|, DATA_OFFSET).ToBytes()
               + SecurityBuffer(|s.nt|, |s.nt|, o1).ToBytes()
               + SecurityBuffer(|s.domain|, |s.domain|, o2).ToBytes()
               + SecurityBuffer(|s.user|, |s.user|, o3).ToBytes()
               + SecurityBuffer(|s.workstation|, |s.workstation|, o4).ToBytes()
               + SecurityBuffer(|s.key|, |s.key|, o5).ToBytes()
               + Flags.ToLe(flags) + version.ToBytes()
  {
    s.BufferOffsets();
  }

  /** The body for the six stored fields. */
  function Layout(s: Stored, flags: NtlmFlags, version: OsVersion): (r: seq<u8>)
    requires s.Fits()
    ensures |r| == FIXED_LENGTH + |s.lm| + |s.nt| + |s.domain| + |s.user| + |s.workstation| + |s.key|
    ensures r[FIXED_LENGTH..] == s.lm + s.nt + s.domain + s.user + s.workstation + s.key
  {
    s.Prefixes();
    FixedPart(s, flags, version) + Concat(s.Fields())
  }

  /** `NtlmAuthenticateMessage::to_bytes`: the domain, user and workstation
      names are stored in the encoding the flags select, in that order; the
      version is written whatever the flags say. */
  function ToBytes(m: AuthenticateMessage, codec: TextCodec): (r: Result<seq<u8>, StoringError>)
    requires Encodable(m, codec)
    ensures r.Ok? <==>
              && NtlmStringToBytes(m.flags, m.domainName, codec).Ok?
              && NtlmStringToBytes(m.flags, m.userName, codec).Ok?
              && NtlmStringToBytes(m.flags, m.workstationName, codec).Ok?
  {
    var domain :- NtlmStringToBytes(m.flags, m.domainName, codec);
    var user :- NtlmStringToBytes(m.flags, m.userName, codec);
    var workstation :- NtlmStringToBytes(m.flags, m.workstationName, codec);
    Ok(Layout(Stored(m.lmResponse, m.ntlmResponse, domain, user, workstation, m.sessionKey), m.flags, m.osVersion))
  }

  /** An encoded message holds its flags at 48, its version at 52 (written
      whatever the flags say) and the LM response first in the data block at
      60; an encoding error is the first name's that fails to encode. */
  lemma EncodedParts(m: AuthenticateMessage, codec: TextCodec)
    requires Encodable(m, codec)
    ensures var r := ToBytes(m, codec);
            var d := NtlmStringToBytes(m.flags, m.domainName, codec);
            var u := NtlmStringToBytes(m.flags, m.userName, codec);
            var w := NtlmStringToBytes(m.flags, m.workstationName, codec);
            && (d.Err? ==> r == Err(d.error))
            && (d.Ok? && u.Err? ==> r == Err(u.error))
            && (d.Ok? && u.Ok? && w.Err? ==> r == Err(w.error))
            && (r.Ok? ==>
                  && |r.value| == FIXED_LENGTH + |m.lmResponse| + |m.ntlmResponse| + |d.value| + |u.value|
                                  + |w.value| + |m.sessionKey|
                  && r.value[48..52] == Flags.ToLe(m.flags)
                  && r.value[52..60] == m.osVersion.ToBytes()
                  && r.value[60..60 + |m.lmResponse|] == m.lmResponse)
  {
    if ToBytes(m, codec).Ok? {
      LayoutParts(StoredOf(m, codec), m.flags, m.osVersion);
    }
  }

  /** The fields the encoder stores for `m`, once all three names encode. */
  function StoredOf(m: AuthenticateMessage, codec: TextCodec): (s: Stored)
    requires Encodable(m, codec)
    requires NtlmStringToBytes(m.flags, m.domainName, codec).Ok?
    requires NtlmStringToBytes(m.flags, m.userName, codec).Ok?
    requires NtlmStringToBytes(m.flags, m.workstationName, codec).Ok?
    ensures s.Fits()
    ensures ToBytes(m, codec) == Ok(FixedPart(s, m.flags, m.osVersion) + Concat(s.Fields()))
  {
    Stored(m.lmResponse, m.ntlmResponse,
           NtlmStringToBytes(m.flags, m.domainName, codec).value,
           NtlmStringToBytes(m.flags, m.userName, codec).value,
           NtlmStringToBytes(m.flags, m.workstationName, codec).value,
           m.sessionKey)
  }

  /** Where each part of a layout sits. */
  lemma LayoutParts(s: Stored, flags: NtlmFlags, version: OsVersion)
    requires s.Fits()
    ensures var v := Layout(s, flags, version);
            && v[..FIXED_LENGTH] == FixedPart(s, flags, version)
            && v[48..52] == Flags.ToLe(flags)
            && v[52..60] == version.ToBytes()
            && v[60..60 + |s.lm|] == s.lm
  {
    var f := FixedPart(s, flags, version);
    assert f[48..52] == Flags.ToLe(flags) && f[52..60] == version.ToBytes();
    LayoutSlice(s, flags, version, 0);
  }

  /** The i-th security buffer of a body of at least 60 bytes. */
  function BufferAt(v: seq<u8>, i: nat): SecurityBuffer
    requires |v| >= FIXED_LENGTH && i < 6
  {
    SecurityBuffers.TryFrom(v[8 * i..8 * i + 8]).value
  }

  /** `NtlmAuthenticateMessage::try_from` on the bytes after magic and type.
      All six buffers are resolved (adjustment -12) before any text is
      decoded; the responses and the session key are kept as raw bytes. */
  function FromBytes(v: seq<u8>, codec: TextCodec): (r: Result<AuthenticateMessage, ParsingError>)
    ensures |v| < FIXED_LENGTH ==> r == Err(ItemMinLengthMismatch(FIXED_LENGTH, |v|))
    ensures r.Ok? ==> |v| >= FIXED_LENGTH
  {
    if |v| < FIXED_LENGTH then
      Err(ItemMinLengthMismatch(FIXED_LENGTH, |v|))
    else
      var flags := FromBits(U32FromLe(v[48..52])).value;
      var osVersion := if Contains(flags, NEGOTIATE_VERSION) then OsVersions.TryFrom(v[52..60]).value else DEFAULT;
      var lmBytes :- BufferAt(v, 0).ApplyToSlice(v, -12);
      var ntBytes :- BufferAt(v, 1).ApplyToSlice(v, -12);
      var domainBytes :- BufferAt(v, 2).ApplyToSlice(v, -12);
      var userBytes :- BufferAt(v, 3).ApplyToSlice(v, -12);
      var workstationBytes :- BufferAt(v, 4).ApplyToSlice(v, -12);
      var keyBytes :- BufferAt(v, 5).ApplyToSlice(v, -12);
      var domain :- NtlmBytesToString(flags, domainBytes, codec);
      var user :- NtlmBytesToString(flags, userBytes, codec);
      var workstation :- NtlmBytesToString(flags, workstationBytes, codec);
      Ok(AuthenticateMessage(lmBytes, ntBytes, domain, user, workstation, keyBytes, flags, osVersion))
  }

  /** What the decoder needs to yield `m`: enough bytes, its flag word, every
      buffer resolving to the field's stored bytes, the names decoding from
      those, and its version where the flag says one is present. */
  lemma DecodesWhen(v: seq<u8>, codec: TextCodec, m: AuthenticateMessage, s: Stored)
    requires |v| >= FIXED_LENGTH
    requires FromBits(U32FromLe(v[48..52])).value == m.flags
    requires BufferAt(v, 0).ApplyToSlice(v, -12) == Ok(m.lmResponse) && s.lm == m.lmResponse
    requires BufferAt(v, 1).ApplyToSlice(v, -12) == Ok(m.ntlmResponse) && s.nt == m.ntlmResponse
    requires BufferAt(v, 2).ApplyToSlice(v, -12) == Ok(s.domain)
    requires BufferAt(v, 3).ApplyToSlice(v, -12) == Ok(s.user)
    requires BufferAt(v, 4).ApplyToSlice(v, -12) == Ok(s.workstation)
    requires BufferAt(v, 5).ApplyToSlice(v, -12) == Ok(m.sessionKey) && s.key == m.sessionKey
    requires NtlmBytesToString(m.flags, s.domain, codec) == Ok(m.domainName)
    requires NtlmBytesToString(m.flags, s.user, codec) == Ok(m.userName)
    requires NtlmBytesToString(m.flags, s.workstation, codec) == Ok(m.workstationName)
    requires Contains(m.flags, NEGOTIATE_VERSION) ==> OsVersions.TryFrom(v[52..60]).value == m.osVersion
    requires !Contains(m.flags, NEGOTIATE_VERSION) ==> m.osVersion == DEFAULT
    ensures FromBytes(v, codec) == Ok(m)
  {
  }

  /** The hypotheses of the round trip: Unicode, well-formed names, every
      field within a 16-bit length, and a version that is either announced
      by its flag or the all-zero default. */
  predicate RoundTrips(m: AuthenticateMessage) {
    && Contains(m.flags, NEGOTIATE_UNICODE)
    && WellFormedUtf16(m.domainName) && WellFormedUtf16(m.userName) && WellFormedUtf16(m.workstationName)
    && 2 * |m.domainName| <= 0xFFFF && 2 * |m.userName| <= 0xFFFF && 2 * |m.workstationName| <= 0xFFFF
    && |m.lmResponse| <= 0xFFFF && |m.ntlmResponse| <= 0xFFFF && |m.sessionKey| <= 0xFFFF
    && (Contains(m.flags, NEGOTIATE_VERSION) || m.osVersion == DEFAULT)
  }

  /** The stored fields of a message under Unicode. */
  function UnicodeStored(m: AuthenticateMessage): (s: Stored)
    ensures s.lm == m.lmResponse && s.nt == m.ntlmResponse && s.key == m.sessionKey
  {
    Stored(m.lmResponse, m.ntlmResponse, Utf16LeBytes(m.domainName), Utf16LeBytes(m.userName),
           Utf16LeBytes(m.workstationName), m.sessionKey)
  }

  /** Under Unicode the encoder lays out the UTF-16LE bytes of the three names. */
  lemma UnicodeLayout(m: AuthenticateMessage, codec: TextCodec)
    requires RoundTrips(m)
    ensures Encodable(m, codec) && UnicodeStored(m).Fits()
    ensures ToBytes(m, codec) == Ok(Layout(UnicodeStored(m), m.flags, m.osVersion))
  {
  }

  /** The fixed part of a layout parses back into its buffers, flags and version. */
  lemma LayoutFixedPart(s: Stored, flags: NtlmFlags, version: OsVersion)
    requires s.Fits()
    ensures var v := Layout(s, flags, version);
            && BufferAt(v, 0) == s.Buffer(0) && BufferAt(v, 1) == s.Buffer(1) && BufferAt(v, 2) == s.Buffer(2)
            && BufferAt(v, 3) == s.Buffer(3) && BufferAt(v, 4) == s.Buffer(4) && BufferAt(v, 5) == s.Buffer(5)
            && FromBits(U32FromLe(v[48..52])).value == flags
            && OsVersions.TryFrom(v[52..60]) == Ok(version)
  {
    var v := Layout(s, flags, version);
    var f := FixedPart(s, flags, version);
    assert v[..FIXED_LENGTH] == f;
    assert v[0..8] == f[0..8] == s.Buffer(0).ToBytes();
    assert v[8..16] == f[8..16] == s.Buffer(1).ToBytes();
    assert v[16..24] == f[16..24] == s.Buffer(2).ToBytes();
    assert v[24..32] == f[24..32] == s.Buffer(3).ToBytes();
    assert v[32..40] == f[32..40] == s.Buffer(4).ToBytes();
    assert v[40..48] == f[40..48] == s.Buffer(5).ToBytes();
    assert v[48..52] == f[48..52] == Flags.ToLe(flags);
    assert v[52..60] == f[52..60] == version.ToBytes();
    SecurityBuffers.RoundTrip(s.Buffer(0));
    SecurityBuffers.RoundTrip(s.Buffer(1));
    SecurityBuffers.RoundTrip(s.Buffer(2));
    SecurityBuffers.RoundTrip(s.Buffer(3));
    SecurityBuffers.RoundTrip(s.Buffer(4));
    SecurityBuffers.RoundTrip(s.Buffer(5));
    OsVersions.RoundTrip(version);
  }

  /** Each buffer of a layout resolves, with the adjustment -12, to its field. */
  lemma LayoutSlice(s: Stored, flags: NtlmFlags, version: OsVersion, i: nat)
    requires s.Fits() && i < 6
    ensures s.Buffer(i).ApplyToSlice(Layout(s, flags, version), -12) == Ok(s.Fields()[i])
  {
    s.FieldsAreShort(i);
    ConcatBound(s.Fields()[..i]);
    FieldResolves(FixedPart(s, flags, version), s.Fields(), i);
  }

  /** The decoder reads a Unicode layout back into the message. */
  lemma LayoutDecodes(m: AuthenticateMessage, codec: TextCodec)
    requires RoundTrips(m)
    ensures UnicodeStored(m).Fits()
    ensures FromBytes(Layout(UnicodeStored(m), m.flags, m.osVersion), codec) == Ok(m)
  {
    var s := UnicodeStored(m);
    LayoutFixedPart(s, m.flags, m.osVersion);
    LayoutSlice(s, m.flags, m.osVersion, 0);
    LayoutSlice(s, m.flags, m.osVersion, 1);
    LayoutSlice(s, m.flags, m.osVersion, 2);
    LayoutSlice(s, m.flags, m.osVersion, 3);
    LayoutSlice(s, m.flags, m.osVersion, 4);
    LayoutSlice(s, m.flags, m.osVersion, 5);
    Utf16RoundTrip(m.domainName);
    Utf16RoundTrip(m.userName);
    Utf16RoundTrip(m.workstationName);
    DecodesWhen(Layout(s, m.flags, m.osVersion), codec, m, s);
  }

  /** Under Unicode, a message whose names are well-formed and whose fields
      fit 16-bit lengths decodes to itself, provided the version is either
      announced by its flag or the all-zero default. */
  lemma RoundTrip(m: AuthenticateMessage, codec: TextCodec)
    requires RoundTrips(m)
    ensures Encodable(m, codec) && ToBytes(m, codec).Ok?
    ensures FromBytes(ToBytes(m, codec).value, codec) == Ok(m)
  {
    UnicodeLayout(m, codec);
    LayoutDecodes(m, codec);
  }

  /** `NtlmAuthenticateMessage::to_bytes` as the source writes it: the six
      fields through `append_sec_buffer` / `append_sec_buffer_string`, then
      the flags and the version, then the data block. */
  method Encode(m: AuthenticateMessage, codec: TextCodec) returns (r: Result<seq<u8>, StoringError>)
    requires Encodable(m, codec)
    ensures r == ToBytes(m, codec)
  {
    var writer := new MessageWriter(DATA_OFFSET);
    writer.AppendSecBuffer(m.lmResponse);
    assert writer.packet == SecurityBuffer(|m.lmResponse|, |m.lmResponse|, DATA_OFFSET).ToBytes();
    assert writer.dataBlock == m.lmResponse;
    ghost var o1 := writer.offset;
    writer.AppendSecBuffer(m.ntlmResponse);
    ghost var o2 := writer.offset;
    var stored := writer.AppendSecBufferString(m.flags, m.domainName, codec);
    if stored.Err? {
      return Err(stored.error);
    }
    ghost var o3 := writer.offset;
    stored := writer.AppendSecBufferString(m.flags, m.userName, codec);
    if stored.Err? {
      return Err(stored.error);
    }
    ghost var o4 := writer.offset;
    stored := writer.AppendSecBufferString(m.flags, m.workstationName, codec);
    if stored.Err? {
      return Err(stored.error);
    }
    ghost var o5 := writer.offset;
    writer.AppendSecBuffer(m.sessionKey);
    writer.AppendFixed(Flags.ToLe(m.flags));
    writer.AppendFixed(m.osVersion.ToBytes());
    ghost var s := StoredOf(m, codec);
    FixedPartIs(s, m.flags, m.osVersion, o1, o2, o3, o4, o5);
    s.Prefixes();
    assert writer.packet == FixedPart(s, m.flags, m.osVersion);
    assert writer.dataBlock == Concat(s.Fields());
    var bytes := writer.Finish();
    r := Ok(bytes);
  }
}
