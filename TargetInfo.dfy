/** Target-information AV_PAIR entries (`NtlmTargetInfoEntry`), section
    2.2.2.1 of [MS-NLMP]: a type, a length and that many bytes, chained. */
module TargetInfo {
  import opened Wrappers
  import opened Bytes
  import opened Errors
  import Text

  datatype TargetInfoType =
    | Terminator
    | NtServer
    | NtDomain
    | DnsDomain
    | DnsServer
    | DnsForest
    | Flags
    | Timestamp
    | SingleHost
    | TargetName
    | ChannelBindings
    | Unknown(code: u16)

  /** `From<NtlmTargetInfoType> for u16`. */
  function TypeToU16(t: TargetInfoType): (w: u16)
    ensures t.Unknown? ==> w == t.code
    ensures !t.Unknown? ==> w <= 0x000A
  {
    match t
    case Terminator => 0x0000
    case NtServer => 0x0001
    case NtDomain => 0x0002
    case DnsServer => 0x0003
    case DnsDomain => 0x0004
    case DnsForest => 0x0005
    case Flags => 0x0006
    case Timestamp => 0x0007
    case SingleHost => 0x0008
    case TargetName => 0x0009
    case ChannelBindings => 0x000A
    case Unknown(w) => w
  }

  /** `From<u16> for NtlmTargetInfoType`. */
  function TypeFromU16(w: u16): (t: TargetInfoType)
    ensures t.Unknown? <==> w > 0x000A
  {
    match w
    case 0x0000 => Terminator
    case 0x0001 => NtServer
    case 0x0002 => NtDomain
    case 0x0003 => DnsServer
    case 0x0004 => DnsDomain
    case 0x0005 => DnsForest
    case 0x0006 => Flags
    case 0x0007 => Timestamp
    case 0x0008 => SingleHost
    case 0x0009 => TargetName
    case 0x000A => ChannelBindings
    case _ => Unknown(w)
  }

  /** A type is canonical unless it is an `Unknown` that carries a named code. */
  predicate Canonical(t: TargetInfoType) {
    !(t.Unknown? && t.code <= 0x000A)
  }

  /** u16 -> type -> u16 is the identity; type -> u16 -> type is the identity
      exactly on canonical types. */
  lemma TypeCodeRoundTrips(w: u16, t: TargetInfoType)
    ensures TypeToU16(TypeFromU16(w)) == w
    ensures TypeFromU16(TypeToU16(t)) == t <==> Canonical(t)
    ensures Canonical(TypeFromU16(w))
  {
  }

  datatype TargetInfoEntry = TargetInfoEntry(entryType: TargetInfoType, data: seq<u8>)

  /** `NtlmTargetInfoEntry::to_bytes`: type ‖ length ‖ data, little-endian.
      The source panics on data longer than 65535 bytes. */
  function EntryToBytes(e: TargetInfoEntry): (r: seq<u8>)
    requires |e.data| <= 0xFFFF
    ensures |r| == 4 + |e.data|
    ensures r[0..2] == U16ToLe(TypeToU16(e.entryType)) && r[2..4] == U16ToLe(|e.data|) && r[4..] == e.data
  {
    U16ToLe(TypeToU16(e.entryType)) + U16ToLe(|e.data|) + e.data
  }

  /** `NtlmTargetInfoEntry::try_from_bytes`: one entry and the bytes after it.
      Note that the odd-length error reports the length of all remaining
      bytes, as the source does, and that it applies to every entry type. */
  function EntryFromBytes(b: seq<u8>): (r: Result<(TargetInfoEntry, seq<u8>), ParsingError>)
    ensures |b| < 4 ==> r == Err(ItemMinLengthMismatch(4, |b|))
    ensures |b| >= 4 && 4 + U16FromLe(b[2..4]) > |b| ==>
              r == Err(ItemMinLengthMismatch(4 + U16FromLe(b[2..4]), |b|))
    ensures |b| >= 4 && 4 + U16FromLe(b[2..4]) <= |b| && U16FromLe(b[2..4]) % 2 != 0 ==>
              r == Err(ItemLengthNotDivisible(2, |b|))
    ensures r.Ok? ==> var (e, rest) := r.value;
              && |b| >= 4
              && |e.data| == U16FromLe(b[2..4]) && |e.data| % 2 == 0
              && b == EntryToBytes(e) + rest
              && Canonical(e.entryType)
  {
    if |b| < 4 then
      Err(ItemMinLengthMismatch(4, |b|))
    else
      var code := U16FromLe(b[0..2]);
      var length := U16FromLe(b[2..4]);
      if length + 4 > |b| then
        Err(ItemMinLengthMismatch(length + 4, |b|))
      else if length % 2 != 0 then
        Err(ItemLengthNotDivisible(2, |b|))
      else
        var e := TargetInfoEntry(TypeFromU16(code), b[4..4 + length]);
        TypeCodeRoundTrips(code, e.entryType);
        assert b == b[0..2] + b[2..4] + b[4..4 + length] + b[4 + length..];
        Ok((e, b[4 + length..]))
  }

  /** Entries the encoder can write (none longer than 65535 bytes). */
  predicate AllFit(es: seq<TargetInfoEntry>) {
    forall i :: 0 <= i < |es| ==> |es[i].data| <= 0xFFFF
  }

  /** Entries the encoder can write and the decoder reads back unchanged:
      even-length data and canonical types. */
  predicate AllRepresentable(es: seq<TargetInfoEntry>) {
    forall i :: 0 <= i < |es| ==>
      |es[i].data| <= 0xFFFF && |es[i].data| % 2 == 0 && Canonical(es[i].entryType)
  }

  /** Decoding one encoded entry, followed by anything, yields that entry and
      exactly what followed it. */
  lemma {:induction false} EntryRoundTrip(e: TargetInfoEntry, rest: seq<u8>)
    requires |e.data| <= 0xFFFF && |e.data| % 2 == 0 && Canonical(e.entryType)
    ensures EntryFromBytes(EntryToBytes(e) + rest) == Ok((e, rest))
  {
    var b := EntryToBytes(e) + rest;
    assert b[0..2] == U16ToLe(TypeToU16(e.entryType)) && b[2..4] == U16ToLe(|e.data|);
    U16RoundTrip(TypeToU16(e.entryType));
    U16RoundTrip(|e.data|);
    TypeCodeRoundTrips(0, e.entryType);
    assert b[4..4 + |e.data|] == e.data && b[4 + |e.data|..] == rest;
  }

  /** `NtlmTargetInfoEntry::to_string`: the data read as UTF-16LE, whatever
      the negotiated encoding. */
  function EntryToString(e: TargetInfoEntry): (r: Result<Text.String, ParsingError>)
    ensures r.Ok? ==> Text.Utf16LeBytes(r.value) == e.data
    ensures |e.data| % 2 != 0 ==> r == Err(ItemLengthNotDivisible(2, |e.data|))
  {
    Text.Utf16LeBytesToString(e.data)
  }

  /** `NtlmTargetInfoEntry::from_string`: the string stored as UTF-16LE,
      whatever the negotiated encoding. */
  function EntryFromString(t: TargetInfoType, s: Text.String): (e: TargetInfoEntry)
    ensures e.entryType == t && |e.data| == 2 * |s|
  {
    TargetInfoEntry(t, Text.Utf16LeBytes(s))
  }

  /** A well-formed string stored in an entry reads back unchanged. */
  lemma EntryStringRoundTrip(t: TargetInfoType, s: Text.String)
    requires Text.WellFormedUtf16(s)
    ensures EntryToString(EntryFromString(t, s)) == Ok(s)
  {
    Text.Utf16RoundTrip(s);
  }

  /** An entry whose data reads as a string is the entry stored from that string. */
  lemma EntryStringReencode(e: TargetInfoEntry)
    requires EntryToString(e).Ok?
    ensures EntryFromString(e.entryType, EntryToString(e).value) == e
  {
  }

  /** The total length of the entries' data. */
  function DataLength(es: seq<TargetInfoEntry>): nat {
    if es == [] then 0 else |es[0].data| + DataLength(es[1..])
  }

  /** The entries concatenated in order, as the Challenge encoder and the
      handshake build them: each takes its 4-byte header and its data. */
  function ListToBytes(es: seq<TargetInfoEntry>): (r: seq<u8>)
    requires AllFit(es)
    ensures |r| == 4 * |es| + DataLength(es)
  {
    if es == [] then [] else EntryToBytes(es[0]) + ListToBytes(es[1..])
  }

  /** The decode loop of the Challenge decoder: entries are read until no
      bytes remain; a terminator entry is kept like any other. */
  function ListFromBytes(b: seq<u8>): (r: Result<seq<TargetInfoEntry>, ParsingError>)
    ensures r.Ok? ==> AllRepresentable(r.value)
    decreases |b|
  {
    if |b| == 0 then
      Ok([])
    else
      var (e, rest) :- EntryFromBytes(b);
      var tail :- ListFromBytes(rest);
      Ok([e] + tail)
  }

  /** Re-encoding a decoded list reproduces the input bytes exactly. */
  lemma {:induction false} ListReencode(b: seq<u8>)
    requires ListFromBytes(b).Ok?
    ensures ListToBytes(ListFromBytes(b).value) == b
    decreases |b|
  {
    if |b| > 0 {
      var (e, rest) := EntryFromBytes(b).value;
      ListReencode(rest);
      var tail := ListFromBytes(rest).value;
      assert ListFromBytes(b).value == [e] + tail;
    }
  }

  /** Decoding the encoding of representable entries gives them back. */
  lemma {:induction false} ListRoundTrip(es: seq<TargetInfoEntry>)
    requires AllRepresentable(es)
    ensures ListFromBytes(ListToBytes(es)) == Ok(es)
  {
    if es != [] {
      ListRoundTrip(es[1..]);
      EntryRoundTrip(es[0], ListToBytes(es[1..]));
      assert es == [es[0]] + es[1..];
    }
  }

  /** `prefix` in front of a decoded list; an error stays the error. */
  function Prepend(prefix: seq<TargetInfoEntry>, r: Result<seq<TargetInfoEntry>, ParsingError>): Result<seq<TargetInfoEntry>, ParsingError> {
    match r
    case Ok(es) => Ok(prefix + es)
    case Err(e) => Err(e)
  }

  /** One turn of the decode loop: the first entry, then the rest. */
  lemma ListFromBytesStep(b: seq<u8>)
    requires |b| > 0
    ensures EntryFromBytes(b).Err? ==> ListFromBytes(b) == Err(EntryFromBytes(b).error)
    ensures EntryFromBytes(b).Ok? ==>
              ListFromBytes(b) == Prepend([EntryFromBytes(b).value.0], ListFromBytes(EntryFromBytes(b).value.1))
  {
  }

  lemma PrependTwice(prefix: seq<TargetInfoEntry>, e: TargetInfoEntry, r: Result<seq<TargetInfoEntry>, ParsingError>)
    ensures Prepend(prefix, Prepend([e], r)) == Prepend(prefix + [e], r)
  {
    if r.Ok? {
      assert prefix + ([e] + r.value) == (prefix + [e]) + r.value;
    }
  }

  /** `while target_info_bytes.len() > 0 { … }` of the Challenge decoder. */
  method ParseList(bytes: seq<u8>) returns (r: Result<seq<TargetInfoEntry>, ParsingError>)
    ensures r == ListFromBytes(bytes)
  {
    var entries: seq<TargetInfoEntry> := [];
    var remaining := bytes;
    assert Prepend([], ListFromBytes(bytes)) == ListFromBytes(bytes) by {
      if ListFromBytes(bytes).Ok? {
        assert [] + ListFromBytes(bytes).value == ListFromBytes(bytes).value;
      }
    }
    while |remaining| > 0
      invariant ListFromBytes(bytes) == Prepend(entries, ListFromBytes(remaining))
      decreases |remaining|
    {
      ListFromBytesStep(remaining);
      var step := EntryFromBytes(remaining);
      if step.Err? {
        return Err(step.error);
      }
      var (e, next) := step.value;
      assert |next| < |remaining| by {
        assert remaining == EntryToBytes(e) + next;
      }
      PrependTwice(entries, e, ListFromBytes(next));
      entries := entries + [e];
      remaining := next;
    }
    assert entries + [] == entries;
    r := Ok(entries);
  }
}
