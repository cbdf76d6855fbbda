/** The two error enumerations of the codec: `NtlmParsingError` for decoding
    and `NtlmStoringError` for encoding. */
module Errors {
  import opened Bytes

  datatype ParsingError =
    | ShortHeader(expectedMinLen: nat, obtainedLen: nat)
    | MagicMismatch(expectedMagic: seq<u8>, obtainedMagic: seq<u8>)
    | ItemLengthMismatch(expected: nat, obtained: nat)
    | ItemMinLengthMismatch(expectedAtLeast: nat, obtained: nat)
    | ItemLengthNotDivisible(expectedDivisor: nat, obtainedLength: nat)
    | InvalidOemEncoding(bytes: seq<u8>)
    | InvalidUtf16(units: seq<u16>)
    | OffsetTooLargeIsize
    | LengthTooLargeIsize
    | StartOutOfRange(start: int, sliceLength: int)
    | EndOutOfRange(end: int, sliceLength: int)
    | NeitherUnicodeNorOem

  datatype StoringError =
    | NonOemEncodable(text: seq<u16>)
    | NeitherUnicodeNorOem
}
