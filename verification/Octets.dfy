/**
 Bytes and numbers in network byte order.
 */
module Octets {

  type Byte = n: nat | n < 256

  function Octet(b: seq<Byte>, i: nat): nat
    requires i < |b|
  {
    b[i]
  }

  /** The 16 bit number at position `i`. */
  function Half(b: seq<Byte>, i: nat): nat
    requires i + 1 < |b|
  {
    256 * Octet(b, i) + Octet(b, i + 1)
  }

  function Be16(n: nat): (r: seq<Byte>)
    requires n < 0x1_0000
    ensures |r| == 2 && Half(r, 0) == n
  {
    [n / 256, n % 256]
  }
}
