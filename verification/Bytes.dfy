/** Bytes, digests and the result type shared by the whole model.

    File contents, wire messages and hashes are sequences of `Byte`. Bit fields
    and node identifiers, whose code works bit by bit, are sequences of `bv8`. */
module Bytes {
  type Byte = b: int | 0 <= b < 256

  type ByteString = seq<Byte>

  /** The output of SHA-1. The hash itself is always a parameter of the model. */
  type Digest = d: ByteString | |d| == 20 witness seq(20, _ => 0)

  type HashFunction = ByteString -> Digest

  datatype Option<+T> = None | Some(value: T)

  datatype Result<+T, +E> = Ok(value: T) | Err(error: E)

  /** `copy(buf[at:], block)` for a block that fits. */
  function Overwrite(buf: ByteString, at: nat, block: ByteString): (r: ByteString)
    requires at + |block| <= |buf|
    ensures |r| == |buf|
    ensures r[..at] == buf[..at]
    ensures r[at..at + |block|] == block
    ensures r[at + |block|..] == buf[at + |block|..]
  {
    buf[..at] + block + buf[at + |block|..]
  }

  /** Part `i` of `data` cut into parts of `size` bytes; the last may be short. */
  function Chunk(data: ByteString, size: nat, i: nat): (chunk: ByteString)
    requires i * size <= |data|
    ensures |chunk| <= size && (|chunk| < size ==> i * size + |chunk| == |data|)
    ensures forall j :: 0 <= j < |chunk| ==> i * size + j < |data| && chunk[j] == data[i * size + j]
  {
    data[i * size..if i * size + size > |data| then |data| else i * size + size]
  }
}
