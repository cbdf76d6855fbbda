/** The 32-bit negotiation flag set (`NtlmFlags`), section 2.2.2.5 of [MS-NLMP].
    Every one of the 32 bits has a name, so no bit pattern is rejected. */
module Flags {
  import opened Wrappers
  import opened Bytes

  type NtlmFlags = bv32

  const NEGOTIATE_UNICODE: NtlmFlags := 0x0000_0001
  const NEGOTIATE_OEM: NtlmFlags := 0x0000_0002
  const REQUEST_TARGET: NtlmFlags := 0x0000_0004
  const UNKNOWN_8: NtlmFlags := 0x0000_0008
  const NEGOTIATE_SIGN: NtlmFlags := 0x0000_0010
  const NEGOTIATE_SEAL: NtlmFlags := 0x0000_0020
  const NEGOTIATE_DATAGRAM: NtlmFlags := 0x0000_0040
  const NEGOTIATE_LANMAN_KEY: NtlmFlags := 0x0000_0080
  const NEGOTIATE_NETWARE: NtlmFlags := 0x0000_0100
  const NEGOTIATE_NTLM: NtlmFlags := 0x0000_0200
  const UNKNOWN_400: NtlmFlags := 0x0000_0400
  const NEGOTIATE_ANONYMOUS: NtlmFlags := 0x0000_0800
  const NEGOTIATE_DOMAIN_SUPPLIED: NtlmFlags := 0x0000_1000
  const NEGOTIATE_WORKSTATION_SUPPLIED: NtlmFlags := 0x0000_2000
  const NEGOTIATE_LOCAL_CALL: NtlmFlags := 0x0000_4000
  const NEGOTIATE_ALWAYS_SIGN: NtlmFlags := 0x0000_8000
  const TARGET_TYPE_DOMAIN: NtlmFlags := 0x0001_0000
  const TARGET_TYPE_SERVER: NtlmFlags := 0x0002_0000
  const TARGET_TYPE_SHARE: NtlmFlags := 0x0004_0000
  const NEGOTIATE_NTLM2_KEY: NtlmFlags := 0x0008_0000
  const REQUEST_INIT_RESPONSE: NtlmFlags := 0x0010_0000
  const REQUEST_ACCEPT_RESPONSE: NtlmFlags := 0x0020_0000
  const REQUEST_NON_NT_SESSION_KEY: NtlmFlags := 0x0040_0000
  const NEGOTIATE_TARGET_INFO: NtlmFlags := 0x0080_0000
  const UNKNOWN_1000000: NtlmFlags := 0x0100_0000
  const NEGOTIATE_VERSION: NtlmFlags := 0x0200_0000
  const UNKNOWN_4000000: NtlmFlags := 0x0400_0000
  const UNKNOWN_8000000: NtlmFlags := 0x0800_0000
  const UNKNOWN_10000000: NtlmFlags := 0x1000_0000
  const NEGOTIATE_128BIT: NtlmFlags := 0x2000_0000
  const NEGOTIATE_KEY_EXCHANGE: NtlmFlags := 0x4000_0000
  const NEGOTIATE_56BIT: NtlmFlags := 0x8000_0000

  /** The union of every named flag. */
  const ALL_NAMED: NtlmFlags :=
    NEGOTIATE_UNICODE | NEGOTIATE_OEM | REQUEST_TARGET | UNKNOWN_8
    | NEGOTIATE_SIGN | NEGOTIATE_SEAL | NEGOTIATE_DATAGRAM | NEGOTIATE_LANMAN_KEY
    | NEGOTIATE_NETWARE | NEGOTIATE_NTLM | UNKNOWN_400 | NEGOTIATE_ANONYMOUS
    | NEGOTIATE_DOMAIN_SUPPLIED | NEGOTIATE_WORKSTATION_SUPPLIED | NEGOTIATE_LOCAL_CALL | NEGOTIATE_ALWAYS_SIGN
    | TARGET_TYPE_DOMAIN | TARGET_TYPE_SERVER | TARGET_TYPE_SHARE | NEGOTIATE_NTLM2_KEY
    | REQUEST_INIT_RESPONSE | REQUEST_ACCEPT_RESPONSE | REQUEST_NON_NT_SESSION_KEY | NEGOTIATE_TARGET_INFO
    | UNKNOWN_1000000 | NEGOTIATE_VERSION | UNKNOWN_4000000 | UNKNOWN_8000000
    | UNKNOWN_10000000 | NEGOTIATE_128BIT | NEGOTIATE_KEY_EXCHANGE | NEGOTIATE_56BIT

  /** `flags.contains(flag)`: every bit of `flag` is set in `flags`. */
  predicate Contains(flags: NtlmFlags, flag: NtlmFlags) {
    flags & flag == flag
  }

  /** `NtlmFlags::from_bits`: the flag set when every set bit is named. */
  function FromBits(bits: u32): (r: Option<NtlmFlags>)
    ensures r == Some(bits as bv32)
  {
    var f := bits as bv32;
    if f & !ALL_NAMED == 0 then Some(f) else None
  }

  /** The 4 little-endian bytes of the flag word. */
  function ToLe(flags: NtlmFlags): (r: seq<u8>)
    ensures |r| == 4
    ensures FromBits(U32FromLe(r)) == Some(flags)
  {
    var r := U32ToLe(flags as int);
    U32RoundTrip(flags as int);
    r
  }
}
