/** Bytes, and the fixed layout of the packed ipx_packet structure. */
module Ipx {
  type Byte = b: int | 0 <= b < 256
  type Bytes = seq<Byte>

  const MAX_DATA_SIZE := 8192
  const MAX_PKT_SIZE := 8219

  /** Size of ipx_packet without its one-byte data placeholder. */
  const HEADER := 27

  function LittleEndian16(b: Bytes, at: nat): (n: nat)
    requires at + 2 <= |b|
    ensures n < 65536
  {
    b[at] as int + 256 * b[at + 1] as int
  }

  function BigEndian16(b: Bytes, at: nat): (n: nat)
    requires at + 2 <= |b|
    ensures n < 65536
  {
    256 * b[at] as int + b[at + 1] as int
  }

  /** A 16-bit number in network byte order, */
  function BigEndian(n: nat): (b: Bytes)
    requires n < 65536
    ensures |b| == 2 && BigEndian16(b, 0) == n
  {
    [n / 256, n % 256]
  }

  /** and in the byte order of the host, an x86. */
  function LittleEndian(n: nat): (b: Bytes)
    requires n < 65536
    ensures |b| == 2 && LittleEndian16(b, 0) == n
  {
    [n % 256, n / 256]
  }

  /** What recv_pump() accepts: a datagram that fits the slot and whose host-order size field
      (offset 25) is exactly its payload's length. */
  predicate Acceptable(d: Bytes) {
    HEADER <= |d| <= MAX_PKT_SIZE && |d| == LittleEndian16(d, 25) + HEADER
  }
}
