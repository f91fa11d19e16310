/** Octets of buffers and packets as numbers. */
module Bytes {
  type Byte = x: nat | x < 256

  /** The 16-bit number of a low and a high octet. */
  function Join16(lo: nat, hi: nat): nat {
    lo + 256 * hi
  }
}
