/** Fixed-width machine integers and their little-endian byte encodings,
    as produced by Rust's `to_le_bytes` and consumed by `from_le_bytes`. */
module Bytes {

  type u8 = x: int | 0 <= x < 0x100
  type u16 = x: int | 0 <= x < 0x1_0000
  type u32 = x: int | 0 <= x < 0x1_0000_0000
  type u64 = x: int | 0 <= x < 0x1_0000_0000_0000_0000
  type i64 = x: int | -0x8000_0000_0000_0000 <= x < 0x8000_0000_0000_0000

  /** A byte sequence of a fixed length, as the source's `[u8; N]` arrays. */
  type Bytes3 = s: seq<u8> | |s| == 3 witness [0, 0, 0]
  type Bytes7 = s: seq<u8> | |s| == 7 witness [0, 0, 0, 0, 0, 0, 0]
  type Bytes8 = s: seq<u8> | |s| == 8 witness [0, 0, 0, 0, 0, 0, 0, 0]
  type Bytes16 = s: seq<u8> | |s| == 16 witness Zeros(16)
  type Bytes24 = s: seq<u8> | |s| == 24 witness Zeros(24)

  /** `n` zero bytes. */
  function Zeros(n: nat): (r: seq<u8>)
    ensures |r| == n
    ensures forall i :: 0 <= i < n ==> r[i] == 0
  {
    seq(n, i => 0)
  }

  function U16ToLe(x: u16): (r: seq<u8>)
    ensures |r| == 2
    ensures r[0] as int + 0x100 * r[1] as int == x
  {
    [x % 0x100, x / 0x100]
  }

  function U16FromLe(b: seq<u8>): (x: u16)
    requires |b| == 2
    ensures U16ToLe(x) == b
  {
    b[0] as int + 0x100 * b[1] as int
  }

  function U32ToLe(x: u32): (r: seq<u8>)
    ensures |r| == 4
  {
    U16ToLe(x % 0x1_0000) + U16ToLe(x / 0x1_0000)
  }

  function U32FromLe(b: seq<u8>): (x: u32)
    requires |b| == 4
    ensures U32ToLe(x) == b
  {
    var lo, hi := U16FromLe(b[..2]), U16FromLe(b[2..]);
    SplitAt16(lo, hi);
    assert b == b[..2] + b[2..];
    lo + 0x1_0000 * hi
  }

  /** Division by 2^16 recovers the high half, the remainder the low one. */
  lemma SplitAt16(lo: int, hi: int)
    requires 0 <= lo < 0x1_0000
    ensures (lo + 0x1_0000 * hi) / 0x1_0000 == hi && (lo + 0x1_0000 * hi) % 0x1_0000 == lo
  {
  }

  /** Little-endian bytes of an unsigned 64-bit value: reading the two
      32-bit halves back gives the value. */
  function U64ToLe(x: u64): (r: seq<u8>)
    ensures |r| == 8
    ensures r[..4] == U32ToLe(x % 0x1_0000_0000) && r[4..] == U32ToLe(x / 0x1_0000_0000)
    ensures U32FromLe(r[..4]) + 0x1_0000_0000 * U32FromLe(r[4..]) == x
  {
    U32RoundTrip(x % 0x1_0000_0000);
    U32RoundTrip(x / 0x1_0000_0000);
    U32ToLe(x % 0x1_0000_0000) + U32ToLe(x / 0x1_0000_0000)
  }

  /** Two's-complement little-endian bytes of a signed 64-bit value
      (`i64::to_le_bytes`): read back as an unsigned number they give the
      value modulo 2^64, so a negative time t is stored as t + 2^64. */
  function I64ToLe(t: i64): (r: seq<u8>)
    ensures |r| == 8
    ensures U32FromLe(r[..4]) + 0x1_0000_0000 * U32FromLe(r[4..]) == t % 0x1_0000_0000_0000_0000
  {
    U64ToLe(if t < 0 then t + 0x1_0000_0000_0000_0000 else t)
  }

  lemma U16RoundTrip(x: u16)
    ensures U16FromLe(U16ToLe(x)) == x
  {
  }

  lemma U32RoundTrip(x: u32)
    ensures U32FromLe(U32ToLe(x)) == x
  {
  }
}
