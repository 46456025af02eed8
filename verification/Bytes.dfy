/** Bytes, and numbers in network order. */
module Bytes {
  type byte = b: int | 0 <= b < 256
  type Word16 = w: nat | w < 0x1_0000
  type Word32 = w: nat | w < 0x1_0000_0000

  /** The payload of the largest UDP reply, for the buffer it is kept in and for the server that sends it. */
  const MAX_REPLY: nat := 1472

  function Read16(m: seq<byte>, p: nat): Word16
    requires p + 2 <= |m|
  {
    0x100 * (m[p] as nat) + m[p + 1]
  }

  function Read32(m: seq<byte>, p: nat): Word32
    requires p + 4 <= |m|
  {
    0x1_0000 * Read16(m, p) + Read16(m, p + 2)
  }
}
