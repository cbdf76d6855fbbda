/** Text as it crosses the wire: UTF-16 little-endian when NEGOTIATE_UNICODE
    is set, otherwise a platform code page when NEGOTIATE_OEM is set. */
module Text {
  import opened Wrappers
  import opened Bytes
  import opened Flags
  import opened Errors

  /** A string, as the sequence of UTF-16 code units `str::encode_utf16` yields. */
  type String = seq<u16>

  predicate IsHighSurrogate(u: u16) {
    0xD800 <= u < 0xDC00
  }

  predicate IsLowSurrogate(u: u16) {
    0xDC00 <= u < 0xE000
  }

  /** The code units `String::from_utf16` accepts: every high surrogate is
      followed by a low one, and no low surrogate stands alone. */
  predicate WellFormedUtf16(s: String)
    decreases |s|
  {
    if s == [] then true
    else if IsHighSurrogate(s[0]) then |s| >= 2 && IsLowSurrogate(s[1]) && WellFormedUtf16(s[2..])
    else !IsLowSurrogate(s[0]) && WellFormedUtf16(s[1..])
  }

  /** `encode_utf16().flat_map(to_le_bytes)`: two bytes per code unit, low byte first. */
  function Utf16LeBytes(s: String): (r: seq<u8>)
    ensures |r| == 2 * |s|
  {
    if s == [] then [] else U16ToLe(s[0]) + Utf16LeBytes(s[1..])
  }

  /** `chunks_exact(2).map(u16::from_le_bytes)`. */
  function CodeUnits(b: seq<u8>): (r: seq<u16>)
    requires |b| % 2 == 0
    ensures 2 * |r| == |b|
  {
    if b == [] then [] else [U16FromLe(b[..2])] + CodeUnits(b[2..])
  }

  lemma {:induction false} CodeUnitsOfUtf16LeBytes(s: String)
    ensures CodeUnits(Utf16LeBytes(s)) == s
  {
    if s != [] {
      var b := Utf16LeBytes(s);
      assert b[..2] == U16ToLe(s[0]) && b[2..] == Utf16LeBytes(s[1..]);
      U16RoundTrip(s[0]);
      CodeUnitsOfUtf16LeBytes(s[1..]);
    }
  }

  lemma {:induction false} Utf16LeBytesOfCodeUnits(b: seq<u8>)
    requires |b| % 2 == 0
    ensures Utf16LeBytes(CodeUnits(b)) == b
  {
    if b != [] {
      var u := CodeUnits(b);
      assert u[0] == U16FromLe(b[..2]) && u[1..] == CodeUnits(b[2..]);
      Utf16LeBytesOfCodeUnits(b[2..]);
      assert b == b[..2] + b[2..];
    }
  }

  /** `utf16_le_bytes_to_string`. */
  function Utf16LeBytesToString(b: seq<u8>): (r: Result<String, ParsingError>)
    ensures r.Ok? <==> |b| % 2 == 0 && WellFormedUtf16(CodeUnits(b))
    ensures |b| % 2 != 0 ==> r == Err(ItemLengthNotDivisible(2, |b|))
    ensures r.Ok? ==> Utf16LeBytes(r.value) == b
  {
    if |b| % 2 != 0 then
      Err(ItemLengthNotDivisible(2, |b|))
    else
      var units := CodeUnits(b);
      Utf16LeBytesOfCodeUnits(b);
      if WellFormedUtf16(units) then Ok(units) else Err(InvalidUtf16(units))
  }

  /** Decoding the UTF-16LE bytes of a well-formed string gives the string back. */
  lemma Utf16RoundTrip(s: String)
    requires WellFormedUtf16(s)
    ensures Utf16LeBytesToString(Utf16LeBytes(s)) == Ok(s)
  {
    CodeUnitsOfUtf16LeBytes(s);
  }

  /** The platform's code-page services, which the model does not define:
      `Encoding::OEM.to_string`, `Encoding::OEM.to_bytes`,
      `Encoding::ANSI.to_bytes` (each `None` on failure) and `str::to_uppercase`. */
  datatype TextCodec = TextCodec(
    oemToString: seq<u8> -> Option<String>,
    oemToBytes: String -> Option<seq<u8>>,
    ansiToBytes: String -> Option<seq<u8>>,
    toUppercase: String -> String)

  /** `oem_bytes_to_string`. */
  function OemBytesToString(codec: TextCodec, b: seq<u8>): (r: Result<String, ParsingError>)
    ensures r.Err? <==> codec.oemToString(b).None?
    ensures r.Err? ==> r.error == InvalidOemEncoding(b)
    ensures r.Ok? ==> Some(r.value) == codec.oemToString(b)
  {
    match codec.oemToString(b)
    case Some(s) => Ok(s)
    case None => Err(InvalidOemEncoding(b))
  }

  /** `ntlm_bytes_to_string`: Unicode takes precedence over OEM, and with
      neither flag the bytes are refused. */
  function NtlmBytesToString(flags: NtlmFlags, b: seq<u8>, codec: TextCodec): (r: Result<String, ParsingError>)
    ensures Contains(flags, NEGOTIATE_UNICODE) ==> r == Utf16LeBytesToString(b)
    ensures !Contains(flags, NEGOTIATE_UNICODE) && Contains(flags, NEGOTIATE_OEM) ==> r == OemBytesToString(codec, b)
    ensures r == Err(ParsingError.NeitherUnicodeNorOem)
            <==> !Contains(flags, NEGOTIATE_UNICODE) && !Contains(flags, NEGOTIATE_OEM)
  {
    if Contains(flags, NEGOTIATE_UNICODE) then
      Utf16LeBytesToString(b)
    else if Contains(flags, NEGOTIATE_OEM) then
      OemBytesToString(codec, b)
    else
      Err(ParsingError.NeitherUnicodeNorOem)
  }

  /** The bytes `append_sec_buffer_string` stores for a string: UTF-16LE
      under Unicode, otherwise the ANSI code page under OEM, otherwise an error. */
  function NtlmStringToBytes(flags: NtlmFlags, s: String, codec: TextCodec): (r: Result<seq<u8>, StoringError>)
    ensures Contains(flags, NEGOTIATE_UNICODE) ==> r == Ok(Utf16LeBytes(s))
    ensures !Contains(flags, NEGOTIATE_UNICODE) && Contains(flags, NEGOTIATE_OEM) ==>
              && (r.Ok? <==> codec.ansiToBytes(s).Some?)
              && (r.Ok? ==> Some(r.value) == codec.ansiToBytes(s))
              && (r.Err? ==> r.error == NonOemEncodable(s))
    ensures r == Err(StoringError.NeitherUnicodeNorOem)
            <==> !Contains(flags, NEGOTIATE_UNICODE) && !Contains(flags, NEGOTIATE_OEM)
  {
    if Contains(flags, NEGOTIATE_UNICODE) then
      Ok(Utf16LeBytes(s))
    else if Contains(flags, NEGOTIATE_OEM) then
      match codec.ansiToBytes(s)
      case Some(bs) => Ok(bs)
      case None => Err(NonOemEncodable(s))
    else
      Err(StoringError.NeitherUnicodeNorOem)
  }

  /** Under Unicode, a well-formed string stored by the encoder is read back
      unchanged by the decoder, whatever the code-page services do. */
  lemma UnicodeTextRoundTrip(flags: NtlmFlags, s: String, codec: TextCodec)
    requires Contains(flags, NEGOTIATE_UNICODE) && WellFormedUtf16(s)
    ensures NtlmStringToBytes(flags, s, codec).Ok?
    ensures NtlmBytesToString(flags, NtlmStringToBytes(flags, s, codec).value, codec) == Ok(s)
  {
    Utf16RoundTrip(s);
  }
}
