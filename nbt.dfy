/**
 * The adapter that lets a tree-blob (NBT) value be written as a packet field.
 * It delegates to the blob's own serializer and appends those bytes verbatim,
 * with no length prefix in front of them; it never reports an error.
 */
module NbtField {
  import opened Wrappers
  import opened Bytes

  /** The tree-blob values this core builds; the rest of the format is not part of this model. */
  datatype Nbt =
    | LongArray(name: Option<string>, longs: seq<int>)
    | NamelessCompound(tags: seq<Nbt>)

  /** An I/O failure reported by the blob's serializer; its cases are not part of this model. */
  type IoError(==)

  datatype NbtEncodeError = Io(ioError: IoError) | Infallible

  /**
   * `SerializePacketData for Nbt::encode`. `toBytes` is the blob format's own
   * self-delimiting serializer (`Nbt::to_bytes`).
   */
  method Encode(nbt: Nbt, toBytes: Nbt -> seq<Byte>, bytes: ByteBuffer) returns (r: Result<(), NbtEncodeError>)
    modifies bytes
    ensures bytes.bytes == old(bytes.bytes) + toBytes(nbt)
    ensures |bytes.bytes| == |old(bytes.bytes)| + |toBytes(nbt)|
    ensures r == Success(())
  {
    var nbtBytes := toBytes(nbt);
    bytes.Extend(nbtBytes);
    r := Success(());
  }
}
