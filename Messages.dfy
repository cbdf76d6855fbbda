/** The message envelope (`NtlmMessage`), section 2.2.1 of [MS-NLMP]: the
    8-byte signature "NTLMSSP\0", a 4-byte little-endian message type, and
    the body of that type. */
module Messages {
  import opened Wrappers
  import opened Bytes
  import opened Errors
  import opened Text
  import N = Negotiate
  import C = Challenge
  import A = Authenticate

  /** `NTLMSSP_MAGIC`. */
  const MAGIC: seq<u8> := [0x4E, 0x54, 0x4C, 0x4D, 0x53, 0x53, 0x50, 0x00]

  /** The three message types of the protocol, and any other type carried
      with its raw body. */
  datatype NtlmMessage =
    | NegotiateMsg(negotiate: N.NegotiateMessage)
    | ChallengeMsg(challenge: C.ChallengeMessage)
    | AuthenticateMsg(authenticate: A.AuthenticateMessage)
    | Other(messageType: u32, data: seq<u8>)

  /** `message_number`: the type field this message is sent with. */
  function MessageNumber(m: NtlmMessage): (t: u32)
    ensures m.NegotiateMsg? <==> t == 1 && !m.Other?
    ensures m.ChallengeMsg? <==> t == 2 && !m.Other?
    ensures m.AuthenticateMsg? <==> t == 3 && !m.Other?
    ensures m.Other? ==> t == m.messageType
  {
    match m
    case NegotiateMsg(_) => 1
    case ChallengeMsg(_) => 2
    case AuthenticateMsg(_) => 3
    case Other(t, _) => t
  }

  /** The body of the message fits the 16-bit lengths of its security buffers. */
  predicate Encodable(m: NtlmMessage, codec: TextCodec) {
    match m
    case NegotiateMsg(n) => N.Encodable(n, codec)
    case ChallengeMsg(c) => C.Encodable(c, codec)
    case AuthenticateMsg(a) => A.Encodable(a, codec)
    case Other(_, _) => true
  }

  /** The encoded body of the message, or the error that stops it. A
      challenge body is written by the source's own encoder, which places
      the context in the data block (`Challenge.ToBytesAsWritten`). */
  function BodyToBytes(m: NtlmMessage, codec: TextCodec): Result<seq<u8>, StoringError>
    requires Encodable(m, codec)
  {
    match m
    case NegotiateMsg(n) => N.ToBytes(n, codec)
    case ChallengeMsg(c) => C.ToBytesAsWritten(c, codec)
    case AuthenticateMsg(a) => A.ToBytes(a, codec)
    case Other(_, data) => Ok(data)
  }

  /** Signature, type, then the body; a body that cannot be stored makes the
      whole message fail with its error. */
  function Envelope(m: NtlmMessage, body: Result<seq<u8>, StoringError>): Result<seq<u8>, StoringError> {
    var b :- body;
    Ok(MAGIC + U32ToLe(MessageNumber(m)) + b)
  }

  /** `NtlmMessage::to_bytes`. */
  function ToBytes(m: NtlmMessage, codec: TextCodec): (r: Result<seq<u8>, StoringError>)
    requires Encodable(m, codec)
    ensures r.Ok? <==> BodyToBytes(m, codec).Ok?
    ensures r.Err? ==> r.error == BodyToBytes(m, codec).error
    ensures r.Ok? ==> |r.value| >= 12 && r.value[..8] == MAGIC && r.value[8..12] == U32ToLe(MessageNumber(m))
                      && r.value[12..] == BodyToBytes(m, codec).value
  {
    Envelope(m, BodyToBytes(m, codec))
  }

  /** `NtlmMessage::to_bytes` as the source writes it: a buffer extended
      with the signature, the type and the body, returning early on the
      body's error. */
  method Encode(m: NtlmMessage, codec: TextCodec) returns (r: Result<seq<u8>, StoringError>)
    requires Encodable(m, codec)
    ensures r == ToBytes(m, codec)
  {
    var buf := MAGIC;
    buf := buf + U32ToLe(MessageNumber(m));
    var body: Result<seq<u8>, StoringError>;
    match m {
      case NegotiateMsg(n) =>
        body := N.Encode(n, codec);
      case ChallengeMsg(c) =>
        body := C.EncodeAsWritten(c, codec);
      case AuthenticateMsg(a) =>
        body := A.Encode(a, codec);
      case Other(_, data) =>
        body := Ok(data);
    }
    if body.Err? {
      return Err(body.error);
    }
    buf := buf + body.value;
    r := Ok(buf);
  }

  /** The envelope with the corrected challenge encoder (`Challenge.ToBytes`,
      the context in the fixed part); every other body is as the source writes it. */
  function CorrectedBodyToBytes(m: NtlmMessage, codec: TextCodec): Result<seq<u8>, StoringError>
    requires Encodable(m, codec)
  {
    if m.ChallengeMsg? then C.ToBytes(m.challenge, codec) else BodyToBytes(m, codec)
  }

  function CorrectedToBytes(m: NtlmMessage, codec: TextCodec): (r: Result<seq<u8>, StoringError>)
    requires Encodable(m, codec)
    ensures r.Ok? <==> CorrectedBodyToBytes(m, codec).Ok?
    ensures r.Err? ==> r.error == CorrectedBodyToBytes(m, codec).error
    ensures r.Ok? ==> |r.value| >= 12 && r.value[..8] == MAGIC && r.value[8..12] == U32ToLe(MessageNumber(m))
                      && r.value[12..] == CorrectedBodyToBytes(m, codec).value
  {
    Envelope(m, CorrectedBodyToBytes(m, codec))
  }

  /** `NtlmMessage::try_from`: at least 12 bytes, then the signature, then
      the body according to the type; a type other than 1, 2 or 3 keeps its
      body as raw bytes. */
  function FromBytes(v: seq<u8>, codec: TextCodec): (r: Result<NtlmMessage, ParsingError>)
    ensures |v| < 12 ==> r == Err(ShortHeader(12, |v|))
    ensures |v| >= 12 && v[..8] != MAGIC ==> r == Err(MagicMismatch(MAGIC, v[..8]))
    ensures r.Ok? ==> |v| >= 12 && v[..8] == MAGIC && MessageNumber(r.value) == U32FromLe(v[8..12])
    ensures r.Ok? && r.value.Other? ==> r.value.data == v[12..]
  {
    if |v| < 12 then
      Err(ShortHeader(12, |v|))
    else if v[..8] != MAGIC then
      Err(MagicMismatch(MAGIC, v[..8]))
    else
      var messageType := U32FromLe(v[8..12]);
      var body := v[12..];
      if messageType == 1 then
        var n :- N.FromBytes(body, codec);
        Ok(NegotiateMsg(n))
      else if messageType == 2 then
        var c :- C.FromBytes(body, codec);
        Ok(ChallengeMsg(c))
      else if messageType == 3 then
        var a :- A.FromBytes(body, codec);
        Ok(AuthenticateMsg(a))
      else
        Ok(Other(messageType, body))
  }

  /** Signature and type of an encoded message read back as they were written. */
  lemma HeaderRoundTrip(m: NtlmMessage, codec: TextCodec)
    requires Encodable(m, codec) && ToBytes(m, codec).Ok?
    ensures var v := ToBytes(m, codec).value;
            v[..8] == MAGIC && U32FromLe(v[8..12]) == MessageNumber(m) && v[12..] == BodyToBytes(m, codec).value
  {
    U32RoundTrip(MessageNumber(m));
  }

  /** A message of a type the codec does not know travels unchanged. */
  lemma OtherRoundTrip(t: u32, data: seq<u8>, codec: TextCodec)
    requires t != 1 && t != 2 && t != 3
    ensures ToBytes(Other(t, data), codec).Ok?
    ensures FromBytes(ToBytes(Other(t, data), codec).value, codec) == Ok(Other(t, data))
  {
    HeaderRoundTrip(Other(t, data), codec);
  }

  /** Whatever the body, the decoder of the envelope hands the bytes after
      the header to the decoder of the type the header names. */
  lemma DispatchesOnType(m: NtlmMessage, codec: TextCodec)
    requires Encodable(m, codec) && ToBytes(m, codec).Ok?
    ensures var v := ToBytes(m, codec).value;
            var body := BodyToBytes(m, codec).value;
            && (m.NegotiateMsg? ==> FromBytes(v, codec) == MapNegotiate(N.FromBytes(body, codec)))
            && (m.ChallengeMsg? ==> FromBytes(v, codec) == MapChallenge(C.FromBytes(body, codec)))
            && (m.AuthenticateMsg? ==> FromBytes(v, codec) == MapAuthenticate(A.FromBytes(body, codec)))
  {
    HeaderRoundTrip(m, codec);
  }

  function MapNegotiate(r: Result<N.NegotiateMessage, ParsingError>): Result<NtlmMessage, ParsingError> {
    if r.Ok? then Ok(NegotiateMsg(r.value)) else Err(r.error)
  }

  function MapChallenge(r: Result<C.ChallengeMessage, ParsingError>): Result<NtlmMessage, ParsingError> {
    if r.Ok? then Ok(ChallengeMsg(r.value)) else Err(r.error)
  }

  function MapAuthenticate(r: Result<A.AuthenticateMessage, ParsingError>): Result<NtlmMessage, ParsingError> {
    if r.Ok? then Ok(AuthenticateMsg(r.value)) else Err(r.error)
  }

  /** The whole-message round trip, for every message whose body round-trips:
      a negotiate message under the hypotheses of `Negotiate.RoundTrip`, an
      authenticate message under those of `Authenticate.RoundTrip`, and any
      message of another type. A challenge message does not round-trip
      through the source's encoder (`ChallengeDoesNotRoundTrip`); it does
      through the corrected one (`CorrectedRoundTrip`). */
  predicate RoundTrips(m: NtlmMessage) {
    match m
    case NegotiateMsg(n) => N.RoundTrips(n)
    case ChallengeMsg(_) => false
    case AuthenticateMsg(a) => A.RoundTrips(a)
    case Other(t, _) => t != 1 && t != 2 && t != 3
  }

  lemma RoundTrip(m: NtlmMessage, codec: TextCodec)
    requires RoundTrips(m)
    ensures Encodable(m, codec) && ToBytes(m, codec).Ok?
    ensures FromBytes(ToBytes(m, codec).value, codec) == Ok(m)
  {
    match m
    case NegotiateMsg(n) =>
      N.RoundTrip(n, codec);
      DispatchesOnType(m, codec);
    case AuthenticateMsg(a) =>
      A.RoundTrip(a, codec);
      DispatchesOnType(m, codec);
    case Other(t, data) =>
      OtherRoundTrip(t, data, codec);
  }

  /** The source's envelope does not round-trip a challenge: the empty
      challenge comes back with the context (0, 56). */
  lemma ChallengeDoesNotRoundTrip(codec: TextCodec)
    ensures var m := ChallengeMsg(C.EmptyChallenge());
            && Encodable(m, codec) && ToBytes(m, codec).Ok?
            && FromBytes(ToBytes(m, codec).value, codec) == Ok(ChallengeMsg(C.EmptyChallenge().(context := (0, 56))))
            && FromBytes(ToBytes(m, codec).value, codec) != Ok(m)
  {
    C.AsWrittenDoesNotRoundTrip(codec);
    DispatchesOnType(ChallengeMsg(C.EmptyChallenge()), codec);
  }

  /** With the corrected challenge encoder every message type round-trips,
      a challenge message under the hypotheses of `Challenge.RoundTrip`. */
  predicate CorrectedRoundTrips(m: NtlmMessage) {
    if m.ChallengeMsg? then C.RoundTrips(m.challenge) else RoundTrips(m)
  }

  lemma CorrectedRoundTrip(m: NtlmMessage, codec: TextCodec)
    requires CorrectedRoundTrips(m)
    ensures Encodable(m, codec) && CorrectedToBytes(m, codec).Ok?
    ensures FromBytes(CorrectedToBytes(m, codec).value, codec) == Ok(m)
  {
    if m.ChallengeMsg? {
      C.RoundTrip(m.challenge, codec);
      U32RoundTrip(2);
      var v := CorrectedToBytes(m, codec).value;
      assert v[12..] == C.ToBytes(m.challenge, codec).value;
      assert FromBytes(v, codec) == MapChallenge(C.FromBytes(v[12..], codec));
    } else {
      RoundTrip(m, codec);
    }
  }
}
