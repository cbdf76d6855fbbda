/** The message builder of the encoders: the fixed part of a packet, the
    trailing data block, and the running offset at which the next field's
    data will sit in the finished message (`append_sec_buffer` and
    `append_sec_buffer_string` update all three in place). */
module Writer {
  import opened Wrappers
  import opened Bytes
  import opened Flags
  import opened Errors
  import opened Text
  import opened SecurityBuffers

  /** Stored bytes that `for_slice` can describe: no more than 65535 of them
      (the source panics otherwise). */
  predicate Storable(stored: Result<seq<u8>, StoringError>) {
    stored.Ok? ==> |stored.value| <= 0xFFFF
  }

  /** Stored text that `for_slice` can describe (no more than 65535 bytes)
      and that does not push the running offset past `u32::MAX`. */
  predicate StringFits(stored: Result<seq<u8>, StoringError>, offset: int) {
    stored.Ok? ==> |stored.value| <= 0xFFFF && offset + |stored.value| <= 0xFFFF_FFFF
  }

  class MessageWriter {
    /** The fixed part written so far (the source's `ret` / `packet_bytes`). */
    var packet: seq<u8>
    /** The variable-length data, placed after the fixed part (`data_block`). */
    var dataBlock: seq<u8>
    /** Where the next field's data will start in the message (`sec_buffer_offset`). */
    var offset: u32

    constructor (initialOffset: u32)
      ensures packet == [] && dataBlock == [] && offset == initialOffset
    {
      packet := [];
      dataBlock := [];
      offset := initialOffset;
    }

    /** `extend_from_slice` on the fixed part. */
    method AppendFixed(bytes: seq<u8>)
      modifies this
      ensures packet == old(packet) + bytes
      ensures dataBlock == old(dataBlock) && offset == old(offset)
    {
      packet := packet + bytes;
    }

    /** `extend_from_slice` on the data block, without moving the offset. */
    method AppendData(bytes: seq<u8>)
      modifies this
      ensures dataBlock == old(dataBlock) + bytes
      ensures packet == old(packet) && offset == old(offset)
    {
      dataBlock := dataBlock + bytes;
    }

    /** `append_sec_buffer`: the data goes to the data block unchanged, a
        buffer of its length at the old offset goes to the fixed part, and the
        offset moves past the data. */
    method AppendSecBuffer(data: seq<u8>)
      requires |data| <= 0xFFFF && offset + |data| <= 0xFFFF_FFFF
      modifies this
      ensures dataBlock == old(dataBlock) + data
      ensures packet == old(packet) + SecurityBuffer(|data|, |data|, old(offset)).ToBytes()
      ensures offset == old(offset) + |data|
    {
      dataBlock := dataBlock + data;
      var sb := ForSlice(data);
      sb := sb.(offset := offset);
      packet := packet + sb.ToBytes();
      offset := offset + sb.length;
    }

    /** `append_opt_sec_buffer`: an absent field is stored as an empty buffer. */
    method AppendOptSecBuffer(data: Option<seq<u8>>)
      requires data.Some? ==> |data.value| <= 0xFFFF && offset + |data.value| <= 0xFFFF_FFFF
      modifies this
      ensures data.None? ==> dataBlock == old(dataBlock) && offset == old(offset)
                             && packet == old(packet) + SecurityBuffer(0, 0, old(offset)).ToBytes()
      ensures data.Some? ==> dataBlock == old(dataBlock) + data.value && offset == old(offset) + |data.value|
                             && packet == old(packet) + SecurityBuffer(|data.value|, |data.value|, old(offset)).ToBytes()
    {
      var slice := if data.Some? then data.value else [];
      AppendSecBuffer(slice);
    }

    /** `append_sec_buffer_string`: the string in the negotiated encoding,
        appended as by `AppendSecBuffer`; on an encoding error nothing changes. */
    method AppendSecBufferString(flags: NtlmFlags, s: String, codec: TextCodec) returns (r: Result<(), StoringError>)
      requires StringFits(NtlmStringToBytes(flags, s, codec), offset)
      modifies this
      ensures var stored := NtlmStringToBytes(flags, s, codec);
              && (stored.Err? ==> r == Err(stored.error) && unchanged(this))
              && (stored.Ok? ==>
                    && r.Ok?
                    && dataBlock == old(dataBlock) + stored.value
                    && packet == old(packet) + SecurityBuffer(|stored.value|, |stored.value|, old(offset)).ToBytes()
                    && offset == old(offset) + |stored.value|)
    {
      var bs: seq<u8>;
      if Contains(flags, NEGOTIATE_UNICODE) {
        bs := Utf16LeBytes(s);
      } else if Contains(flags, NEGOTIATE_OEM) {
        var encoded := codec.ansiToBytes(s);
        if encoded.None? {
          return Err(NonOemEncodable(s));
        }
        bs := encoded.value;
      } else {
        return Err(StoringError.NeitherUnicodeNorOem);
      }
      AppendSecBuffer(bs);
      r := Ok(());
    }

    /** `ret.append(&mut data_block)`: the data block moves to the end of the packet. */
    method Finish() returns (message: seq<u8>)
      modifies this
      ensures message == old(packet) + old(dataBlock)
      ensures packet == message && dataBlock == []
    {
      packet := packet + dataBlock;
      dataBlock := [];
      message := packet;
    }
  }
}
