/** Bytes, as they are encoded, queued, sent and framed. */
module Octets {

  type Byte = x: int | 0 <= x < 256
  type Bytes = seq<Byte>

  /** The pieces one after the other. */
  function Joined(cs: seq<Bytes>): Bytes {
    if cs == [] then [] else cs[0] + Joined(cs[1..])
  }
}
