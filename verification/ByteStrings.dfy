/** Bytes as numbers, and byte strings. */
module ByteStrings {

  type Byte = x: int | 0 <= x < 256

  type Bytes = seq<Byte>

  /** The length of hashes and node ids. */
  type Bytes32 = s: Bytes | |s| == 32 witness seq(32, _ => 0)

  function Zeros(): Bytes32 {
    seq(32, _ => 0)
  }

  datatype BlockHash = BlockHash(bytes: Bytes32)
}
