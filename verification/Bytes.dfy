/** Byte strings and 32-byte hashes. A hash function is an arbitrary function on byte strings. */
module Bytes {
  type byte = x: nat | x < 256
  type Digest = s: seq<byte> | |s| == 32 witness seq(32, _ => 0)
  type Hasher = seq<byte> -> Digest
}
