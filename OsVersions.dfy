/** The 8-byte VERSION structure (`OsVersion`), section 2.2.2.10 of [MS-NLMP]. */
module OsVersions {
  import opened Wrappers
  import opened Bytes
  import opened Errors

  datatype OsVersion = OsVersion(
    majorVersion: u8,
    minorVersion: u8,
    buildNumber: u16,
    reserved: Bytes3,
    ntlmRevision: u8)
  {
    /** `to_bytes`: major, minor, build (little-endian), the 3 reserved bytes, revision. */
    function ToBytes(): (r: seq<u8>)
      ensures |r| == 8
      ensures r[0] == majorVersion && r[1] == minorVersion && r[2..4] == U16ToLe(buildNumber)
      ensures r[4..7] == reserved && r[7] == ntlmRevision
    {
      [majorVersion, minorVersion] + U16ToLe(buildNumber) + reserved + [ntlmRevision]
    }
  }

  /** `OsVersion::default()`: all zero; what a decoder yields when the version is absent. */
  const DEFAULT: OsVersion := OsVersion(0, 0, 0, [0, 0, 0], 0)

  /** `OsVersion::try_from`: exactly 8 bytes or an error. */
  function TryFrom(b: seq<u8>): (r: Result<OsVersion, ParsingError>)
    ensures r.Ok? <==> |b| == 8
    ensures |b| != 8 ==> r == Err(ItemLengthMismatch(8, |b|))
    ensures r.Ok? ==> r.value.ToBytes() == b
  {
    if |b| != 8 then
      Err(ItemLengthMismatch(8, |b|))
    else
      var v := OsVersion(b[0], b[1], U16FromLe(b[2..4]), b[4..7], b[7]);
      assert b == [b[0], b[1]] + b[2..4] + b[4..7] + [b[7]];
      Ok(v)
  }

  /** Decoding the 8 bytes of a version gives the version back. */
  lemma {:induction false} RoundTrip(v: OsVersion)
    ensures TryFrom(v.ToBytes()) == Ok(v)
  {
    U16RoundTrip(v.buildNumber);
  }

  /** The default version is eight zero bytes on the wire. */
  lemma DefaultIsZeros()
    ensures DEFAULT.ToBytes() == Zeros(8)
  {
  }
}
