/** Security buffers (`NtlmSecurityBuffer`), section 2.2 of [MS-NLMP]: the
    (length, capacity, offset) triple through which every variable-length
    field of a message is addressed. */
module SecurityBuffers {
  import opened Wrappers
  import opened Bytes
  import opened Errors

  /** The largest `isize` on the 64-bit targets the model assumes. */
  const ISIZE_MAX: int := 0x7FFF_FFFF_FFFF_FFFF

  datatype SecurityBuffer = SecurityBuffer(length: u16, capacity: u16, offset: u32) {

    /** `to_bytes`: length, capacity and offset, each little-endian. */
    function ToBytes(): (r: seq<u8>)
      ensures |r| == 8
    {
      U16ToLe(length) + U16ToLe(capacity) + U32ToLe(offset)
    }

    /** `apply_to_slice`: the bytes this buffer designates in `s`, whose first
        byte sits `adjust` bytes after the start of the message. The offset
        comes from the peer, so every bound is checked; an empty buffer
        designates nothing, wherever it points. */
    function ApplyToSlice(s: seq<u8>, adjust: int): (r: Result<seq<u8>, ParsingError>)
      requires -ISIZE_MAX - 1 <= adjust
      requires length == 0 || offset + length + adjust <= ISIZE_MAX
      ensures length == 0 ==> r == Ok([])
      ensures length > 0 && (offset + adjust < 0 || offset + adjust >= |s|) ==>
                r == Err(StartOutOfRange(offset + adjust, |s|))
      ensures length > 0 && 0 <= offset + adjust < |s| && offset + adjust + length > |s| ==>
                r == Err(EndOutOfRange(offset + adjust + length, |s|))
      ensures length > 0 && 0 <= offset + adjust && offset + adjust + length <= |s| ==>
                r == Ok(s[offset + adjust .. offset + adjust + length])
    {
      if length == 0 then
        Ok([])
      else if offset > ISIZE_MAX then
        Err(OffsetTooLargeIsize)
      else if length > ISIZE_MAX then
        Err(LengthTooLargeIsize)
      else if offset + adjust < 0 then
        Err(StartOutOfRange(offset + adjust, |s|))
      else if offset + length + adjust < 0 then
        Err(EndOutOfRange(offset + length + adjust, |s|))
      else if offset + adjust >= |s| then
        Err(StartOutOfRange(offset + adjust, |s|))
      else if offset + length + adjust > |s| then
        Err(EndOutOfRange(offset + length + adjust, |s|))
      else
        Ok(s[offset + adjust .. offset + length + adjust])
    }
  }

  /** `for_slice`: a buffer of exactly the slice's length, at offset 0. The
      source panics on slices longer than 65535 bytes. */
  function ForSlice(data: seq<u8>): (r: SecurityBuffer)
    requires |data| <= 0xFFFF
    ensures r.length == |data| && r.capacity == |data| && r.offset == 0
  {
    SecurityBuffer(|data|, |data|, 0)
  }

  /** `NtlmSecurityBuffer::try_from`: exactly 8 bytes or an error. */
  function TryFrom(b: seq<u8>): (r: Result<SecurityBuffer, ParsingError>)
    ensures r.Ok? <==> |b| == 8
    ensures |b| != 8 ==> r == Err(ItemLengthMismatch(8, |b|))
    ensures r.Ok? ==> r.value.ToBytes() == b
  {
    if |b| != 8 then
      Err(ItemLengthMismatch(8, |b|))
    else
      var sb := SecurityBuffer(U16FromLe(b[0..2]), U16FromLe(b[2..4]), U32FromLe(b[4..8]));
      assert b == b[0..2] + b[2..4] + b[4..8];
      Ok(sb)
  }

  /** Decoding the 8 bytes of a buffer gives the buffer back. */
  lemma {:induction false} RoundTrip(sb: SecurityBuffer)
    ensures TryFrom(sb.ToBytes()) == Ok(sb)
  {
    var b := sb.ToBytes();
    U16RoundTrip(sb.length);
    U16RoundTrip(sb.capacity);
    U32RoundTrip(sb.offset);
  }

  /** With a zero length, every offset (however far out of range) resolves to
      the empty slice; with a non-zero length, success means the designated
      range lies inside the backing bytes. */
  lemma SliceIsInBounds(sb: SecurityBuffer, s: seq<u8>, adjust: int)
    requires -ISIZE_MAX - 1 <= adjust
    requires sb.length == 0 || sb.offset + sb.length + adjust <= ISIZE_MAX
    ensures sb.ApplyToSlice(s, adjust).Ok? <==>
            sb.length == 0 || (0 <= sb.offset + adjust && sb.offset + adjust + sb.length <= |s|)
    ensures sb.ApplyToSlice(s, adjust).Ok? ==> |sb.ApplyToSlice(s, adjust).value| == sb.length
  {
  }

  /** A field stored right after `before` in a message is found again by the
      buffer that records its length and its offset `|before| + 12`, once the
      decoder has dropped the 12 bytes of magic and type. */
  lemma ResolvesToField(before: seq<u8>, f: seq<u8>, after: seq<u8>)
    requires |f| <= 0xFFFF && |before| + 12 < 0x1_0000_0000
    ensures SecurityBuffer(|f|, |f|, |before| + 12).ApplyToSlice(before + f + after, -12) == Ok(f)
  {
    var v := before + f + after;
    assert v[|before|..|before| + |f|] == f;
  }

  /** The data block of a message: its variable-length fields, one after
      the other, in the order the encoder appends them. */
  function Concat(fields: seq<seq<u8>>): seq<u8> {
    if |fields| == 0 then [] else Concat(fields[..|fields| - 1]) + fields[|fields| - 1]
  }

  /** Every field fits a 16-bit buffer length. */
  predicate AllShort(fields: seq<seq<u8>>) {
    forall i :: 0 <= i < |fields| ==> |fields[i]| <= 0xFFFF
  }

  /** A data block of short fields is no longer than 65535 bytes per field. */
  lemma {:induction false} ConcatBound(fields: seq<seq<u8>>)
    requires AllShort(fields)
    ensures |Concat(fields)| <= |fields| * 0xFFFF
  {
    if |fields| > 0 {
      ConcatBound(fields[..|fields| - 1]);
    }
  }

  /** The data block of two runs of fields is the two data blocks in turn. */
  lemma {:induction false} ConcatAppend(a: seq<seq<u8>>, b: seq<seq<u8>>)
    ensures Concat(a + b) == Concat(a) + Concat(b)
    decreases |b|
  {
    if |b| > 0 {
      var c := b[..|b| - 1];
      assert (a + b)[..|a + b| - 1] == a + c;
      ConcatAppend(a, c);
    } else {
      assert a + b == a;
    }
  }

  /** Field `i` of a message whose data block follows `fixed` is found again
      by the buffer that records its length and its offset, counted from the
      start of the message, once the decoder has dropped magic and type. */
  lemma FieldResolves(fixed: seq<u8>, fields: seq<seq<u8>>, i: nat)
    requires i < |fields| && |fields[i]| <= 0xFFFF
    requires |fixed| + |Concat(fields[..i])| + 12 < 0x1_0000_0000
    ensures SecurityBuffer(|fields[i]|, |fields[i]|, |fixed| + |Concat(fields[..i])| + 12)
              .ApplyToSlice(fixed + Concat(fields), -12) == Ok(fields[i])
  {
    assert fields == fields[..i] + [fields[i]] + fields[i + 1..];
    ConcatAppend(fields[..i] + [fields[i]], fields[i + 1..]);
    assert (fields[..i] + [fields[i]])[..i] == fields[..i];
    var before := fixed + Concat(fields[..i]);
    var after := Concat(fields[i + 1..]);
    assert fixed + Concat(fields) == before + fields[i] + after;
    ResolvesToField(before, fields[i], after);
  }
}
