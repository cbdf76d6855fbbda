/** The client's answers to a CHALLENGE_MESSAGE, sections 3.3.1 (NTLM v1)
    and 3.3.2 (NTLMv2) of [MS-NLMP]: the password-derived keys, DES-long,
    the four response variants, and the AUTHENTICATE_MESSAGE that carries
    a response. The hash and cipher primitives are opaque parameters; the
    client challenge and the time are parameters too. */
module Responses {
  import opened Wrappers
  import opened Bytes
  import opened Flags
  import opened Text
  import opened OsVersions
  import A = Authenticate
  import M = Messages

  /** `NtlmCredentials`. */
  datatype Credentials = Credentials(username: String, password: String, domain: String)

  /** `ChallengeResponse`. */
  datatype ChallengeResponse = ChallengeResponse(lmResponse: seq<u8>, ntlmResponse: seq<u8>, sessionKey: seq<u8>)

  /** The primitives of the `des`, `md4`, `md5` and `hmac` crates: one DES
      block encryption under a 7-byte key, MD4, MD5, and HMAC-MD5 of a key
      and a message (feeding a MAC several `update`s is feeding it their
      concatenation). Only their widths are known. */
  datatype Crypto = Crypto(
    desEncrypt: (Bytes7, Bytes8) -> Bytes8,
    md4: seq<u8> -> Bytes16,
    md5: seq<u8> -> Bytes16,
    hmacMd5: (seq<u8>, seq<u8>) -> Bytes16)

  /** The bytes followed by zeros up to at least `n` bytes, as the source's
      `while len < n { push(0) }` loops leave them. */
  function PadTo(bs: seq<u8>, n: nat): (r: seq<u8>)
    ensures |r| == if |bs| >= n then |bs| else n
    ensures r[..|bs|] == bs
    ensures forall i :: |bs| <= i < |r| ==> r[i] == 0
  {
    if |bs| >= n then bs else bs + Zeros(n - |bs|)
  }

  lemma AppendZero(prefix: seq<u8>, k: nat)
    ensures prefix + Zeros(k) + [0] == prefix + Zeros(k + 1)
  {
  }

  /** The same bytes padded with zeros by one push at a time. */
  method PadWithZeros(bs: seq<u8>, n: nat) returns (r: seq<u8>)
    ensures r == PadTo(bs, n)
  {
    r := bs;
    while |r| < n
      invariant |bs| <= |r| && (|bs| < n ==> |r| <= n)
      invariant |bs| >= n ==> r == bs
      invariant r == bs + Zeros(|r| - |bs|)
      decreases n - |r|
    {
      AppendZero(bs, |r| - |bs|);
      r := r + [0];
    }
  }

  /** `des_long`: the data encrypted under each of three 7-byte keys taken
      from the 16-byte key, the last two key bytes padded with five zeros. */
  function DesLong(crypto: Crypto, key: Bytes16, data: Bytes8): (r: Bytes24)
  {
    crypto.desEncrypt(key[0..7], data)
      + crypto.desEncrypt(key[7..14], data)
      + crypto.desEncrypt([key[14], key[15], 0, 0, 0, 0, 0], data)
  }

  /** DESL of section 6 of [MS-NLMP]: the key padded with five zeros to 21
      bytes and cut into three 7-byte DES keys, each encrypting the data;
      `des_long` computes exactly that. */
  lemma DesLongIsDesl(crypto: Crypto, key: Bytes16, data: Bytes8)
    ensures var k21 := key + Zeros(5);
            var r := DesLong(crypto, key, data);
            && r[0..8] == crypto.desEncrypt(k21[0..7], data)
            && r[8..16] == crypto.desEncrypt(k21[7..14], data)
            && r[16..24] == crypto.desEncrypt(k21[14..21], data)
  {
    var k21 := key + Zeros(5);
    assert k21[0..7] == key[0..7] && k21[7..14] == key[7..14];
    assert k21[14..21] == [key[14], key[15], 0, 0, 0, 0, 0];
  }

  /** The plaintext of the LM hash, "KGS!@#$%". */
  const LM_PLAINTEXT: Bytes8 := [0x4B, 0x47, 0x53, 0x21, 0x40, 0x23, 0x24, 0x25]

  /** `lm_v1_password_func`: the upper-cased password in the OEM code page,
      zero-padded to 14 bytes, each 7-byte half encrypting "KGS!@#$%"; all
      zeros when the password has no OEM encoding. */
  function LmKey(crypto: Crypto, codec: TextCodec, password: String): (r: Bytes16)
  {
    match codec.oemToBytes(codec.toUppercase(password))
    case None => Zeros(16)
    case Some(bs) =>
      var p := PadTo(bs, 14);
      crypto.desEncrypt(p[0..7], LM_PLAINTEXT) + crypto.desEncrypt(p[7..14], LM_PLAINTEXT)
  }

  /** The LM key ignores case and everything past the fourteenth OEM byte:
      two passwords whose upper-cased encodings agree on their padded first
      14 bytes share it, and without an OEM encoding it is all zeros. */
  lemma LmKeyDependsOnFirst14(crypto: Crypto, codec: TextCodec, p1: String, p2: String)
    requires var e1 := codec.oemToBytes(codec.toUppercase(p1));
             var e2 := codec.oemToBytes(codec.toUppercase(p2));
             e1.Some? && e2.Some? && PadTo(e1.value, 14)[..14] == PadTo(e2.value, 14)[..14]
    ensures LmKey(crypto, codec, p1) == LmKey(crypto, codec, p2)
  {
    var q1 := PadTo(codec.oemToBytes(codec.toUppercase(p1)).value, 14);
    var q2 := PadTo(codec.oemToBytes(codec.toUppercase(p2)).value, 14);
    assert q1[0..7] == q1[..14][0..7] == q2[..14][0..7] == q2[0..7];
    assert q1[7..14] == q1[..14][7..14] == q2[..14][7..14] == q2[7..14];
  }

  lemma LmKeyOfUnencodable(crypto: Crypto, codec: TextCodec, password: String)
    requires codec.oemToBytes(codec.toUppercase(password)).None?
    ensures LmKey(crypto, codec, password) == Zeros(16)
  {
  }

  /** `lm_v1_password_func` as the source writes it, padding in a loop. */
  method LmPassword(crypto: Crypto, codec: TextCodec, password: String) returns (r: Bytes16)
    ensures r == LmKey(crypto, codec, password)
  {
    var uppercasePassword := codec.toUppercase(password);
    var encoded := codec.oemToBytes(uppercasePassword);
    if encoded.None? {
      return Zeros(16);
    }
    var passwordBytes := PadWithZeros(encoded.value, 14);
    var half0: seq<u8> := crypto.desEncrypt(passwordBytes[0..7], LM_PLAINTEXT);
    var half1 := crypto.desEncrypt(passwordBytes[7..14], LM_PLAINTEXT);
    r := half0 + half1;
  }

  /** `ntlm_v1_password_func`: MD4 of the password in UTF-16LE. */
  function NtlmV1Key(crypto: Crypto, password: String): (r: Bytes16)
  {
    crypto.md4(Utf16LeBytes(password))
  }

  /** `ntlm_v2_password_func`: HMAC-MD5 under the v1 key of the upper-cased
      user name and then the domain, both in UTF-16LE; the domain keeps its case. */
  function NtlmV2Key(crypto: Crypto, codec: TextCodec, creds: Credentials): (r: Bytes16)
  {
    crypto.hmacMd5(NtlmV1Key(crypto, creds.password),
                   Utf16LeBytes(codec.toUppercase(creds.username)) + Utf16LeBytes(creds.domain))
  }

  /** The v2 key ignores the case of the user name (user names that
      upper-case alike share it) but not that of the domain, which enters
      the HMAC as given. */
  lemma NtlmV2KeyUserCase(crypto: Crypto, codec: TextCodec, creds: Credentials, otherUser: String)
    requires codec.toUppercase(otherUser) == codec.toUppercase(creds.username)
    ensures NtlmV2Key(crypto, codec, creds.(username := otherUser)) == NtlmV2Key(crypto, codec, creds)
  {
  }

  /** `respond_challenge_ntlm_v1`: DES-long of the server challenge under
      the NTLM key and under the LM key; the session key is MD4 of the
      NTLM key. */
  function V1(crypto: Crypto, codec: TextCodec, serverChallenge: Bytes8, creds: Credentials): ChallengeResponse
  {
    var ntlmKey := NtlmV1Key(crypto, creds.password);
    ChallengeResponse(
      DesLong(crypto, LmKey(crypto, codec, creds.password), serverChallenge),
      DesLong(crypto, ntlmKey, serverChallenge),
      crypto.md4(ntlmKey))
  }

  /** `respond_challenge_ntlm_v1_no_lm`: the NTLM response is sent in both fields. */
  function V1NoLm(crypto: Crypto, serverChallenge: Bytes8, creds: Credentials): ChallengeResponse
  {
    var ntlmKey := NtlmV1Key(crypto, creds.password);
    var ntlmResponse := DesLong(crypto, ntlmKey, serverChallenge);
    ChallengeResponse(ntlmResponse, ntlmResponse, crypto.md4(ntlmKey))
  }

  /** `respond_challenge_ntlm_v1_extended` for a given client challenge (the
      source draws it from `OsRng`): DES-long under the NTLM key of the first
      half of MD5(server challenge ‖ client challenge), and the client
      challenge zero-padded to 24 bytes as the LM response. */
  function V1Extended(crypto: Crypto, serverChallenge: Bytes8, clientChallenge: Bytes8, creds: Credentials): ChallengeResponse
  {
    var ntlmKey := NtlmV1Key(crypto, creds.password);
    var digest := crypto.md5(serverChallenge + clientChallenge);
    ChallengeResponse(
      PadTo(clientChallenge, 24),
      DesLong(crypto, ntlmKey, digest[0..8]),
      crypto.md4(ntlmKey))
  }

  /** The variant without LM differs from plain v1 only in repeating the NTLM
      response where v1 sends the LM one. */
  lemma V1NoLmRepeatsNtlm(crypto: Crypto, codec: TextCodec, serverChallenge: Bytes8, creds: Credentials)
    ensures var v1 := V1(crypto, codec, serverChallenge, creds);
            V1NoLm(crypto, serverChallenge, creds) == v1.(lmResponse := v1.ntlmResponse)
    ensures V1NoLm(crypto, serverChallenge, creds).lmResponse == V1NoLm(crypto, serverChallenge, creds).ntlmResponse
  {
  }

  /** Every v1 variant sends 24-byte responses and MD4 of the NTLM key as
      session key. */
  lemma V1SessionKeys(crypto: Crypto, codec: TextCodec, serverChallenge: Bytes8, clientChallenge: Bytes8, creds: Credentials)
    ensures var key := crypto.md4(NtlmV1Key(crypto, creds.password));
            && V1(crypto, codec, serverChallenge, creds).sessionKey == key
            && V1NoLm(crypto, serverChallenge, creds).sessionKey == key
            && V1Extended(crypto, serverChallenge, clientChallenge, creds).sessionKey == key
    ensures |V1(crypto, codec, serverChallenge, creds).lmResponse| == 24
    ensures |V1(crypto, codec, serverChallenge, creds).ntlmResponse| == 24
    ensures |V1Extended(crypto, serverChallenge, clientChallenge, creds).lmResponse| == 24
    ensures |V1Extended(crypto, serverChallenge, clientChallenge, creds).ntlmResponse| == 24
  {
  }

  /** With extended session security the LM field is the client challenge
      followed by 16 zeros, and the NTLM field DES-long of the first eight
      bytes of MD5(server challenge ‖ client challenge). */
  lemma V1ExtendedLayout(crypto: Crypto, serverChallenge: Bytes8, clientChallenge: Bytes8, creds: Credentials)
    ensures var r := V1Extended(crypto, serverChallenge, clientChallenge, creds);
            var k21 := NtlmV1Key(crypto, creds.password) + Zeros(5);
            var data := crypto.md5(serverChallenge + clientChallenge)[0..8];
            && r.lmResponse[..8] == clientChallenge
            && r.lmResponse[8..] == Zeros(16)
            && r.ntlmResponse[0..8] == crypto.desEncrypt(k21[0..7], data)
            && r.ntlmResponse[8..16] == crypto.desEncrypt(k21[7..14], data)
            && r.ntlmResponse[16..24] == crypto.desEncrypt(k21[14..21], data)
  {
    var r := V1Extended(crypto, serverChallenge, clientChallenge, creds);
    assert r.lmResponse[8..] == Zeros(16);
    DesLongIsDesl(crypto, NtlmV1Key(crypto, creds.password), crypto.md5(serverChallenge + clientChallenge)[0..8]);
  }

  /** `respond_challenge_ntlm_v1_extended` as the source writes it, padding
      the LM response in a loop. */
  method RespondV1Extended(crypto: Crypto, serverChallenge: Bytes8, clientChallenge: Bytes8, creds: Credentials)
    returns (r: ChallengeResponse)
    ensures r == V1Extended(crypto, serverChallenge, clientChallenge, creds)
  {
    var ntlmKey := NtlmV1Key(crypto, creds.password);
    var digest := crypto.md5(serverChallenge + clientChallenge);
    var ntlmResponse := DesLong(crypto, ntlmKey, digest[0..8]);
    var lmResponse := PadWithZeros(clientChallenge, 24);
    r := ChallengeResponse(lmResponse, ntlmResponse, crypto.md4(ntlmKey));
  }

  /** The NTLMv2 client blob ("temp" in section 3.3.2 of [MS-NLMP]): the two
      response versions, six zeros, the time, the client challenge, four
      zeros, the target information and four zeros. */
  function Blob(time: i64, clientChallenge: Bytes8, targetInfo: seq<u8>): (r: seq<u8>)
    ensures |r| == 32 + |targetInfo|
  {
    [0x01, 0x01] + Zeros(6) + I64ToLe(time) + clientChallenge + Zeros(4) + targetInfo + Zeros(4)
  }

  /** The blob's fields as a reader finds them: at fixed positions before
      the target information, and the target information between them and
      the trailing four zeros. */
  function BlobTime(temp: seq<u8>): seq<u8>
    requires |temp| >= 32
  {
    temp[8..16]
  }

  function BlobClientChallenge(temp: seq<u8>): seq<u8>
    requires |temp| >= 32
  {
    temp[16..24]
  }

  function BlobTargetInfo(temp: seq<u8>): seq<u8>
    requires |temp| >= 32
  {
    temp[28..|temp| - 4]
  }

  /** Reading the blob back gives the time, the client challenge and the
      target information that went in, around the fixed version and zero bytes. */
  lemma BlobLayout(time: i64, clientChallenge: Bytes8, targetInfo: seq<u8>)
    ensures var temp := Blob(time, clientChallenge, targetInfo);
            && temp[..8] == [1, 1, 0, 0, 0, 0, 0, 0]
            && BlobTime(temp) == I64ToLe(time)
            && BlobClientChallenge(temp) == clientChallenge
            && temp[24..28] == Zeros(4)
            && BlobTargetInfo(temp) == targetInfo
            && temp[|temp| - 4..] == Zeros(4)
  {
    var temp := Blob(time, clientChallenge, targetInfo);
    var n := |targetInfo|;
    assert temp == [0x01, 0x01] + Zeros(6) + I64ToLe(time) + clientChallenge + Zeros(4) + targetInfo + Zeros(4);
    assert temp[..8] == [1, 1, 0, 0, 0, 0, 0, 0];
    assert temp[8..16] == I64ToLe(time);
    assert temp[16..24] == clientChallenge;
    assert temp[24..28] == Zeros(4);
    assert temp[28..28 + n] == targetInfo;
    assert temp[28 + n..] == Zeros(4);
  }

  /** `respond_challenge_ntlm_v2` for a given client challenge and time (the
      source draws the challenge from `OsRng`; its callers pass the time):
      the NT proof is HMAC-MD5 under the v2 key of the server challenge and
      the blob; the NTLM response is the proof and the blob, the LM response
      HMAC-MD5 of both challenges followed by the client challenge, and the
      session key HMAC-MD5 of the proof. */
  function V2(crypto: Crypto, codec: TextCodec, serverChallenge: Bytes8, targetInfo: seq<u8>, time: i64,
              clientChallenge: Bytes8, creds: Credentials): ChallengeResponse
  {
    var ntlmKey := NtlmV2Key(crypto, codec, creds);
    var temp := Blob(time, clientChallenge, targetInfo);
    var proof := crypto.hmacMd5(ntlmKey, serverChallenge + temp);
    ChallengeResponse(
      crypto.hmacMd5(ntlmKey, serverChallenge + clientChallenge) + clientChallenge,
      proof + temp,
      crypto.hmacMd5(ntlmKey, proof))
  }

  /** What a server holding the v2 key checks of a response field: it is at
      least 16 bytes long, and its first 16 bytes are HMAC-MD5 of the
      server challenge followed by the rest of the field. */
  predicate ProofMatches(crypto: Crypto, key: Bytes16, serverChallenge: Bytes8, response: seq<u8>) {
    |response| >= 16 && response[..16] == crypto.hmacMd5(key, serverChallenge + response[16..])
  }

  /** Both v2 response fields pass the server's check; the NTLM field carries
      the blob after the proof, the LM field the client challenge after its
      HMAC, and the session key is the HMAC of the NTLM field's proof. */
  lemma V2Verifies(crypto: Crypto, codec: TextCodec, serverChallenge: Bytes8, targetInfo: seq<u8>, time: i64,
                   clientChallenge: Bytes8, creds: Credentials)
    ensures var r := V2(crypto, codec, serverChallenge, targetInfo, time, clientChallenge, creds);
            var key := NtlmV2Key(crypto, codec, creds);
            && ProofMatches(crypto, key, serverChallenge, r.ntlmResponse)
            && ProofMatches(crypto, key, serverChallenge, r.lmResponse)
            && r.ntlmResponse[16..] == Blob(time, clientChallenge, targetInfo)
            && |r.ntlmResponse| == 48 + |targetInfo|
            && |r.lmResponse| == 24 && r.lmResponse[16..] == clientChallenge
            && r.sessionKey == crypto.hmacMd5(key, r.ntlmResponse[..16])
  {
    var r := V2(crypto, codec, serverChallenge, targetInfo, time, clientChallenge, creds);
    var key := NtlmV2Key(crypto, codec, creds);
    var temp := Blob(time, clientChallenge, targetInfo);
    var proof := crypto.hmacMd5(key, serverChallenge + temp);
    assert r.ntlmResponse[..16] == proof && r.ntlmResponse[16..] == temp;
    var lmProof := crypto.hmacMd5(key, serverChallenge + clientChallenge);
    assert r.lmResponse[..16] == lmProof && r.lmResponse[16..] == clientChallenge;
  }

  /** `respond_challenge_ntlm_v2` as the source writes it: the blob built
      by pushes and zero-filling loops, then the three fields. */
  method RespondV2(crypto: Crypto, codec: TextCodec, serverChallenge: Bytes8, targetInfo: seq<u8>, time: i64,
                   clientChallenge: Bytes8, creds: Credentials) returns (r: ChallengeResponse)
    ensures r == V2(crypto, codec, serverChallenge, targetInfo, time, clientChallenge, creds)
  {
    var temp: seq<u8> := [0x01];
    temp := temp + [0x01];
    ghost var start := temp;
    for i := 0 to 6
      invariant temp == start + Zeros(i)
    {
      AppendZero(start, i);
      temp := temp + [0x00];
    }
    temp := temp + I64ToLe(time);
    temp := temp + clientChallenge;
    ghost var head := temp;
    for i := 0 to 4
      invariant temp == head + Zeros(i)
    {
      AppendZero(head, i);
      temp := temp + [0x00];
    }
    temp := temp + targetInfo;
    ghost var body := temp;
    for i := 0 to 4
      invariant temp == body + Zeros(i)
    {
      AppendZero(body, i);
      temp := temp + [0x00];
    }
    assert temp == Blob(time, clientChallenge, targetInfo);

    var ntlmKey := NtlmV2Key(crypto, codec, creds);
    var ntProofString := crypto.hmacMd5(ntlmKey, serverChallenge + temp);
    var ntlmResponse := ntProofString + temp;
    var lmResponse := crypto.hmacMd5(ntlmKey, serverChallenge + clientChallenge) + clientChallenge;
    var sessionKey := crypto.hmacMd5(ntlmKey, ntProofString);
    r := ChallengeResponse(lmResponse, ntlmResponse, sessionKey);
  }

  /** `ChallengeResponse::to_message`: an AUTHENTICATE_MESSAGE carrying the
      response, the credentials' domain and user name, the workstation name
      and the flags, with the default version. */
  function ToMessage(resp: ChallengeResponse, creds: Credentials, workstationName: String, flags: NtlmFlags): (m: M.NtlmMessage)
  {
    M.AuthenticateMsg(A.AuthenticateMessage(
      resp.lmResponse, resp.ntlmResponse, creds.domain, creds.username,
      workstationName, resp.sessionKey, flags, DEFAULT))
  }

  /** A response whose fields fit 16-bit lengths, sent under Unicode with
      well-formed names, reaches the server intact: decoding the encoded
      message gives back the response, the credentials' names and the
      workstation. */
  lemma ToMessageRoundTrip(resp: ChallengeResponse, creds: Credentials, workstationName: String, flags: NtlmFlags, codec: TextCodec)
    requires Contains(flags, NEGOTIATE_UNICODE)
    requires WellFormedUtf16(creds.domain) && WellFormedUtf16(creds.username) && WellFormedUtf16(workstationName)
    requires 2 * |creds.domain| <= 0xFFFF && 2 * |creds.username| <= 0xFFFF && 2 * |workstationName| <= 0xFFFF
    requires |resp.lmResponse| <= 0xFFFF && |resp.ntlmResponse| <= 0xFFFF && |resp.sessionKey| <= 0xFFFF
    ensures var m := ToMessage(resp, creds, workstationName, flags);
            && M.Encodable(m, codec) && M.ToBytes(m, codec).Ok?
            && M.FromBytes(M.ToBytes(m, codec).value, codec) == Ok(m)
    ensures var a := ToMessage(resp, creds, workstationName, flags).authenticate;
            && ChallengeResponse(a.lmResponse, a.ntlmResponse, a.sessionKey) == resp
            && a.domainName == creds.domain && a.userName == creds.username
            && a.workstationName == workstationName && a.flags == flags && a.osVersion == DEFAULT
  {
    var m := ToMessage(resp, creds, workstationName, flags);
    assert A.RoundTrips(m.authenticate);
    M.RoundTrip(m, codec);
  }

  /** The v2 response fits the 16-bit buffer lengths of the message for
      target information of up to 65487 bytes. */
  lemma ResponsesFit(crypto: Crypto, codec: TextCodec, serverChallenge: Bytes8, targetInfo: seq<u8>, time: i64,
                     clientChallenge: Bytes8, creds: Credentials)
    requires |targetInfo| <= 0xFFFF - 48
    ensures var r := V2(crypto, codec, serverChallenge, targetInfo, time, clientChallenge, creds);
            |r.lmResponse| <= 0xFFFF && |r.ntlmResponse| <= 0xFFFF && |r.sessionKey| <= 0xFFFF
  {
    V2Verifies(crypto, codec, serverChallenge, targetInfo, time, clientChallenge, creds);
  }
}
